// Byte strings and the one notion of occurrence every scan in the program uses.
module Bytes {

  type byte = b: int | 0 <= b < 256

  type Text = seq<byte>

  // `v` stands at offset `i` of `s`.
  predicate OccursAt(v: Text, s: Text, i: int) {
    0 <= i && i + |v| <= |s| && s[i..i + |v|] == v
  }

  predicate Occurs(v: Text, s: Text) {
    exists i | 0 <= i <= |s| :: OccursAt(v, s, i)
  }

  function Min(a: int, b: int): int {
    if a <= b then a else b
  }

  function Max(a: int, b: int): int {
    if a >= b then a else b
  }

  // The first `n` bytes, or all of them.
  function Take(s: Text, n: nat): Text {
    s[..Min(n, |s|)]
  }

  lemma Assoc(a: Text, b: Text, c: Text)
    ensures a + (b + c) == (a + b) + c
  {
  }

  lemma SliceOfSlice(s: Text, a: nat, b: nat, c: nat, d: nat)
    requires a <= b <= |s| && c <= d <= b - a
    ensures s[a..b][c..d] == s[a + c..a + d]
  {
    forall t | 0 <= t < d - c
      ensures s[a..b][c..d][t] == s[a + c..a + d][t]
    {
      assert s[a..b][c + t] == s[a + (c + t)];
    }
  }

  lemma OccursByte(v: Text, s: Text, i: nat, k: nat)
    requires OccursAt(v, s, i) && k < |v|
    ensures s[i + k] == v[k]
  {
    assert s[i..i + |v|][k] == s[i + k];
  }

  lemma DiffersAt(v: Text, s: Text, i: nat, k: nat)
    requires k < |v| && i + k < |s| && v[k] != s[i + k]
    ensures !OccursAt(v, s, i)
  {
    if i + |v| <= |s| {
      assert s[i..i + |v|][k] == s[i + k];
    }
  }

  lemma DropOfConcat(a: Text, b: Text, i: nat)
    requires |a| <= i <= |a| + |b|
    ensures (a + b)[i..] == b[i - |a|..]
  {
  }

  lemma OccursAtSuffix(v: Text, s: Text, k: nat, i: int)
    requires k <= |s| && k <= i
    ensures OccursAt(v, s, i) <==> OccursAt(v, s[k..], i - k)
  {
    if i + |v| <= |s| {
      assert s[i..i + |v|] == s[k..][i - k..i - k + |v|];
    }
  }

  lemma OccursAtPrefix(v: Text, s: Text, n: nat, i: int)
    requires n <= |s|
    ensures OccursAt(v, s[..n], i) <==> OccursAt(v, s, i) && i + |v| <= n
  {
    if 0 <= i && i + |v| <= n {
      assert s[i..i + |v|] == s[..n][i..i + |v|];
    }
  }

  lemma OccursInPart(v: Text, a: Text, b: Text, c: Text)
    requires Occurs(v, b)
    ensures Occurs(v, a + b + c)
  {
    var i :| 0 <= i <= |b| && OccursAt(v, b, i);
    assert (a + b + c)[|a| + i..|a| + i + |v|] == b[i..i + |v|];
    assert OccursAt(v, a + b + c, |a| + i);
  }
}
