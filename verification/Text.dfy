// UTF-8 text as bytes: validity (RFC 3629 section 4) and scalar boundaries.
module Text {

  newtype byte = x: int | 0 <= x < 256

  // A byte that continues a scalar, 10xxxxxx (RFC 3629 section 3).
  predicate IsContinuation(b: byte) {
    0x80 <= b < 0xC0
  }

  // Length of the well-formed scalar at the start of `s`; zero when there is none.
  function ScalarLen(s: seq<byte>): (n: nat)
    ensures n <= |s|
  {
    if s == [] then 0
    else if s[0] < 0x80 then 1
    else if 0xC2 <= s[0] < 0xE0 then
      if |s| >= 2 && IsContinuation(s[1]) then 2 else 0
    else if 0xE0 <= s[0] < 0xF0 then
      if && |s| >= 3 && IsContinuation(s[1]) && IsContinuation(s[2])
         && (s[0] == 0xE0 ==> s[1] >= 0xA0) && (s[0] == 0xED ==> s[1] < 0xA0)
      then 3 else 0
    else if 0xF0 <= s[0] < 0xF5 then
      if && |s| >= 4 && IsContinuation(s[1]) && IsContinuation(s[2]) && IsContinuation(s[3])
         && (s[0] == 0xF0 ==> s[1] >= 0x90) && (s[0] == 0xF4 ==> s[1] < 0x90)
      then 4 else 0
    else 0
  }

  predicate ValidUtf8(s: seq<byte>)
    decreases |s|
  {
    s == [] || (ScalarLen(s) > 0 && ValidUtf8(s[ScalarLen(s)..]))
  }

  // Rust's `str`: the only text the editor ever stores or receives.
  type Str = s: seq<byte> | ValidUtf8(s) witness []

  // `str::is_char_boundary`.
  predicate IsBoundary(s: seq<byte>, i: int) {
    0 <= i <= |s| && (i == 0 || i == |s| || !IsContinuation(s[i]))
  }

  lemma ScalarShape(s: seq<byte>, i: nat)
    requires 0 < i < ScalarLen(s)
    ensures IsContinuation(s[i])
  {}

  lemma ScalarLenPrefix(s: seq<byte>, t: seq<byte>)
    requires ScalarLen(s) > 0
    requires |t| >= ScalarLen(s) && t[..ScalarLen(s)] == s[..ScalarLen(s)]
    ensures ScalarLen(t) == ScalarLen(s)
  {
    var n := ScalarLen(s);
    assert forall i :: 0 <= i < n ==> t[i] == t[..n][i] == s[..n][i] == s[i];
  }

  lemma {:induction false} ConcatValid(s: seq<byte>, t: seq<byte>)
    requires ValidUtf8(s) && ValidUtf8(t)
    ensures ValidUtf8(s + t)
    decreases |s|
  {
    if s == [] {
      assert s + t == t;
    } else {
      var n := ScalarLen(s);
      ConcatValid(s[n..], t);
      assert (s + t)[..n] == s[..n];
      ScalarLenPrefix(s, s + t);
      assert (s + t)[n..] == s[n..] + t;
    }
  }

  // Cutting valid text at a scalar boundary leaves two valid texts.
  lemma {:induction false} CutValid(s: seq<byte>, i: nat)
    requires ValidUtf8(s) && IsBoundary(s, i)
    ensures ValidUtf8(s[..i]) && ValidUtf8(s[i..])
    decreases |s|
  {
    if i == 0 {
      assert s[i..] == s;
    } else {
      var n := ScalarLen(s);
      if i < n {
        ScalarShape(s, i);
      }
      CutValid(s[n..], i - n);
      assert s[n..][..i - n] == s[n..i] && s[n..][i - n..] == s[i..];
      assert s[..i][..n] == s[..n];
      ScalarLenPrefix(s, s[..i]);
      assert s[..i][n..] == s[n..i];
    }
  }

  lemma SliceValid(s: seq<byte>, i: nat, j: nat)
    requires ValidUtf8(s) && i <= j && IsBoundary(s, i) && IsBoundary(s, j)
    ensures ValidUtf8(s[i..j])
  {
    CutValid(s, j);
    assert i < j ==> s[..j][i] == s[i];
    CutValid(s[..j], i);
    assert s[..j][i..] == s[i..j];
  }

  lemma FirstIsLead(s: seq<byte>)
    requires ValidUtf8(s) && s != []
    ensures !IsContinuation(s[0])
  {}
}
