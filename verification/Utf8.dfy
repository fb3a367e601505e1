/** Well-formed UTF-8 (section 4 of RFC 3629), as Rust's `str` guarantees and `from_utf8` checks it. */
module Utf8 {
  import opened Wire

  predicate Continues(b: byte) {
    0x80 <= b <= 0xBF
  }

  /** Length of the well-formed character at the head of `s`, or 0 when there is none. */
  function CharLen(s: seq<byte>): (n: nat)
    ensures n <= |s|
  {
    if s == [] then 0
    else if s[0] < 0x80 then 1
    else if |s| >= 2 && 0xC2 <= s[0] <= 0xDF && Continues(s[1]) then 2
    else if |s| >= 3 && 0xE0 <= s[0] <= 0xEF && Continues(s[1]) && Continues(s[2])
            && (s[0] == 0xE0 ==> s[1] >= 0xA0) && (s[0] == 0xED ==> s[1] <= 0x9F) then 3
    else if |s| >= 4 && 0xF0 <= s[0] <= 0xF4 && Continues(s[1]) && Continues(s[2]) && Continues(s[3])
            && (s[0] == 0xF0 ==> s[1] >= 0x90) && (s[0] == 0xF4 ==> s[1] <= 0x8F) then 4
    else 0
  }

  predicate Valid(s: seq<byte>)
    decreases |s|
  {
    s == [] || (CharLen(s) > 0 && Valid(s[CharLen(s)..]))
  }

  lemma CharLenLocal(a: seq<byte>, b: seq<byte>)
    requires CharLen(a) > 0
    ensures CharLen(a + b) == CharLen(a)
  {
    var s := a + b;
    assert forall i :: 0 <= i < |a| ==> s[i] == a[i];
  }

  lemma {:induction false} ConcatIsValid(a: seq<byte>, b: seq<byte>)
    requires Valid(a) && Valid(b)
    ensures Valid(a + b)
    decreases |a|
  {
    if a == [] {
      assert a + b == b;
    } else {
      CharLenLocal(a, b);
      assert (a + b)[CharLen(a)..] == a[CharLen(a)..] + b;
      ConcatIsValid(a[CharLen(a)..], b);
    }
  }

  lemma {:induction false} AsciiIsValid(s: seq<byte>)
    requires forall i :: 0 <= i < |s| ==> s[i] < 0x80
    ensures Valid(s)
  {
    if s != [] {
      AsciiIsValid(s[1..]);
    }
  }
}
