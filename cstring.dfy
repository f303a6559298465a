/**
 * C strings: the characters of a buffer up to its first NUL, which is how
 * `send(const char*)` and `sendTriState(const char*)` read their argument.
 */
module CStrings {
  const NUL: char := 0 as char

  /** The C string stored in a buffer: its characters before the first NUL. */
  function CString(buf: seq<char>): seq<char> {
    if buf == [] || buf[0] == NUL then [] else [buf[0]] + CString(buf[1..])
  }

  /** A C string is a prefix of its buffer and holds no NUL; a buffer without NUL is all string. */
  lemma {:induction false} CStringShape(buf: seq<char>)
    ensures var s := CString(buf);
      |s| <= |buf| && s == buf[..|s|] && NUL !in s
      && (|s| < |buf| ==> buf[|s|] == NUL)
  {
    if buf != [] && buf[0] != NUL {
      CStringShape(buf[1..]);
    }
  }

  lemma {:induction false} CStringOfString(s: seq<char>)
    requires NUL !in s
    ensures CString(s) == s
  {
    if s != [] {
      assert s[1..] + [] == s[1..];
      CStringOfString(s[1..]);
      assert [s[0]] + s[1..] == s;
    }
  }

  /** The loop `for (p = word; *p; p++)` stops at index `i` exactly when the C string has `i` characters. */
  lemma {:induction false} CStringAt(buf: seq<char>, i: nat)
    requires i <= |buf| && NUL !in buf[..i] && (i == |buf| || buf[i] == NUL)
    ensures CString(buf) == buf[..i]
  {
    if i > 0 {
      assert buf[1..][..i - 1] == buf[1..i] && buf[..i] == [buf[0]] + buf[1..i];
      CStringAt(buf[1..], i - 1);
    }
  }

  /** A buffer whose first part holds a NUL ends its string there; otherwise the string runs on into the rest. */
  lemma {:induction false} CStringConcat(a: seq<char>, b: seq<char>)
    ensures NUL in a ==> CString(a + b) == CString(a)
    ensures NUL !in a ==> CString(a + b) == a + CString(b)
  {
    if a == [] {
      assert a + b == b;
    } else {
      assert (a + b)[1..] == a[1..] + b;
      if a[0] != NUL {
        CStringConcat(a[1..], b);
        assert a == [a[0]] + a[1..];
      }
    }
  }
}
