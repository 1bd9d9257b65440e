/**
 * C strings as sequences of characters. A character stands for one byte of the
 * C program; a C string is the part of a buffer before its first NUL.
 */
module CStrings {

  const NUL: char := '\0'

  /** The C string a buffer holds: everything before its first NUL. */
  function CStr(s: seq<char>): (c: seq<char>)
    ensures NUL !in c
    ensures |c| <= |s| && c == s[..|c|]
    ensures |c| < |s| ==> s[|c|] == NUL
    ensures NUL !in s ==> c == s
  {
    s[..Find(s, NUL)]
  }

  /** `strchr`: the index of the first `x` in `s`, or |s| when `x` does not occur. */
  function Find(s: seq<char>, x: char): (i: nat)
    ensures i <= |s|
    ensures forall j :: 0 <= j < i ==> s[j] != x
    ensures i < |s| ==> s[i] == x
    ensures x in s <==> i < |s|
  {
    if s == [] || s[0] == x then 0 else 1 + Find(s[1..], x)
  }

  /**
   * The C string that starts at `start`, located in the whole buffer: it is
   * `s[start..start + n]`, and the NUL that ends it sits at `start + n`.
   */
  lemma Terminator(s: seq<char>, start: nat) returns (n: nat)
    requires start <= |s| && NUL in s[start..]
    ensures start + n < |s| && s[start + n] == NUL
    ensures forall j :: start <= j < start + n ==> s[j] != NUL
    ensures CStr(s[start..]) == s[start..start + n]
  {
    n := Find(s[start..], NUL);
    assert forall j :: start <= j < start + n ==> s[j] == s[start..][j - start];
  }

  /** `strchr` is determined by its contract: the first occurrence, or the length when there is none. */
  lemma FindIs(s: seq<char>, x: char, k: nat)
    requires k <= |s| && (forall j :: 0 <= j < k ==> s[j] != x) && (k < |s| ==> s[k] == x)
    ensures Find(s, x) == k
  {
  }

  /** `strchr` past a prefix that does not hold the character. */
  lemma {:induction false} FindPrefix(a: string, b: string, x: char)
    requires x !in a
    ensures Find(a + b, x) == |a| + Find(b, x)
    decreases |a|
  {
    if a == [] {
      assert a + b == b;
    } else {
      assert (a + b)[0] == a[0] && (a + b)[1..] == a[1..] + b;
      FindPrefix(a[1..], b, x);
    }
  }

  /** A NUL ends the C string: whatever follows it is not part of it. */
  lemma CStrOfTerminated(x: seq<char>, y: seq<char>)
    ensures CStr(x + [NUL] + y) == CStr(x)
  {
    var s := x + [NUL] + y;
    var c := CStr(x);
    assert forall j :: 0 <= j < |c| ==> s[j] == c[j];
    FindIs(s, NUL, |c|);
    assert s[..|c|] == c;
  }

  /**
   * Writing a NUL at position `i` of the C string cuts it there: the string
   * becomes its first `i` characters, and the C string just past `i` is the
   * rest.
   */
  lemma CStrCut(s: seq<char>, i: nat)
    requires i < |CStr(s)|
    ensures CStr(s[i := NUL]) == CStr(s)[..i]
    ensures CStr(s[i + 1..]) == CStr(s)[i + 1..]
  {
    var c := CStr(s);
    var t := s[i := NUL];
    assert forall j :: 0 <= j < i ==> t[j] == c[j];
    FindIs(t, NUL, i);
    assert t[..i] == c[..i];
    var u := s[i + 1..];
    assert forall j :: 0 <= j < |c| - i - 1 ==> u[j] == c[i + 1 + j];
    FindIs(u, NUL, |c| - i - 1);
    assert u[..|c| - i - 1] == c[i + 1..];
  }
}
