// The size-capped audit log and the text whose digest stands for an argument vector.
module Logging {
  import opened Bytes
  import opened Results

  // ---- the rotated files -----------------------------------------------------------

  datatype Slot = Active | Rotated(n: nat)

  // A log file as the writes appended to it; what was there at open counts as one.
  type File = seq<Text>

  type Directory = map<Slot, File>

  function Size(f: File): nat {
    if f == [] then 0 else |f[0]| + Size(f[1..])
  }

  lemma {:induction false} SizeAppend(f: File, b: Text)
    ensures Size(f + [b]) == Size(f) + |b|
  {
    if f == [] {
      assert f + [b] == [b];
    } else {
      assert (f + [b])[1..] == f[1..] + [b];
      SizeAppend(f[1..], b);
    }
  }

  function Get(d: Directory, s: Slot): Option<File> {
    if s in d then Some(d[s]) else None
  }

  function At(d: Directory, s: Slot): File {
    if s in d then d[s] else []
  }

  // Oldest to newest: rotated files `n` down to 1, then the active one.
  function Chain(d: Directory, n: nat): seq<Text> {
    if n == 0 then At(d, Active) else At(d, Rotated(n)) + Chain(d, n - 1)
  }

  predicate IsSuffix(s: seq<Text>, t: seq<Text>) {
    |s| <= |t| && t[|t| - |s|..] == s
  }

  // One rotation over `depth` rotated files: everything moves up, the oldest is dropped.
  ghost predicate ShiftedUp(before: Directory, after: Directory, depth: nat) {
    && Get(after, Active) == Some([])
    && Get(after, Rotated(1)) == Get(before, Active)
    && (forall n | 2 <= n <= depth :: Get(after, Rotated(n)) == Get(before, Rotated(n - 1)))
    && (forall n | n > depth :: Get(after, Rotated(n)) == Get(before, Rotated(n)))
    && Get(after, Rotated(0)) in {None, Get(before, Rotated(0))}
  }

  lemma {:induction false} ShiftedChain(before: Directory, after: Directory, depth: nat, n: nat)
    requires ShiftedUp(before, after, depth) && 1 <= n <= depth
    ensures Chain(after, n) == Chain(before, n - 1)
  {
    if n == 1 {
      assert Get(after, Rotated(1)) == Get(before, Active) && Get(after, Active) == Some([]);
      assert Chain(after, 0) == [] && Chain(after, 1) == At(before, Active) + [];
    } else {
      ShiftedChain(before, after, depth, n - 1);
      assert Get(after, Rotated(n)) == Get(before, Rotated(n - 1));
    }
  }

  lemma {:induction false} AppendedChain(before: Directory, n: nat, r: Text)
    ensures Chain(before[Active := At(before, Active) + [r]], n) == Chain(before, n) + [r]
  {
    if n > 0 {
      AppendedChain(before, n - 1, r);
      assert At(before, Rotated(n)) + (Chain(before, n - 1) + [r]) == Chain(before, n) + [r];
    }
  }

  // What is left after a rotation is still the end of what was logged.
  lemma ShiftedSuffix(before: Directory, after: Directory, depth: nat, logged: seq<Text>)
    requires ShiftedUp(before, after, depth) && depth >= 1 && IsSuffix(Chain(before, depth), logged)
    ensures IsSuffix(Chain(after, depth), logged)
  {
    ShiftedChain(before, after, depth, depth);
    var old_, new_ := Chain(before, depth), Chain(after, depth);
    assert old_ == At(before, Rotated(depth)) + new_;
    assert logged[|logged| - |new_|..] == old_[|old_| - |new_|..] == new_;
  }

  lemma SuffixAppend(a: seq<Text>, b: seq<Text>, r: Text)
    requires IsSuffix(a, b)
    ensures IsSuffix(a + [r], b + [r])
  {
    assert (b + [r])[|b| - |a|..] == b[|b| - |a|..] + [r];
  }

  // Rotated files stay within `bound`, or are ones found at open.
  ghost predicate Bounded(d: Directory, found: Directory, bound: nat) {
    forall s | s in d ::
      Size(d[s]) <= bound || (s != Active && exists t :: t in found && t != Active && d[s] == found[t])
  }

  // Only the active file, `depth` rotated ones, and what was found at open.
  ghost predicate Expected(d: Directory, found: Directory, depth: nat) {
    forall s | s in d :: s == Active || 1 <= s.n <= depth || s in found
  }

  lemma ShiftedBounded(before: Directory, after: Directory, found: Directory, depth: nat, bound: nat)
    requires ShiftedUp(before, after, depth) && depth >= 1
    requires Bounded(before, found, bound) && Expected(before, found, depth)
    ensures Bounded(after, found, bound) && Expected(after, found, depth)
    ensures Active in after && after[Active] == []
  {
    forall s | s in after
      ensures s == Active || (exists t :: t in before && after[s] == before[t])
      ensures s == Active || 1 <= s.n <= depth || s in found
    {
      if s.Rotated? {
        var t := if s.n == 1 then Active else if 2 <= s.n <= depth then Rotated(s.n - 1) else s;
        assert Get(after, s) == Get(before, t);
      }
    }
    assert Get(after, Active) == Some([]);
  }

  lemma BoundCovers(d: Directory, found: Directory, bound: nat)
    requires Active in d && Bounded(d, found, bound)
    ensures Size(d[Active]) <= bound
  {
  }

  lemma AppendBounded(d: Directory, buf: Text, found: Directory, depth: nat, bound: nat, next: nat)
    requires Active in d && Bounded(d, found, bound) && Expected(d, found, depth)
    requires bound <= next && Size(d[Active]) + |buf| <= next
    ensures var after := d[Active := d[Active] + [buf]];
            && Bounded(after, found, next) && Expected(after, found, depth)
            && Size(after[Active]) == Size(d[Active]) + |buf|
  {
    SizeAppend(d[Active], buf);
  }

  // `from` renamed to `to` when it is there.
  function Moved(d: Directory, from: Slot, to: Slot): Directory {
    if from in d then (d - {from})[to := d[from]] else d
  }

  // Files above `n` have moved up, `n` itself is free, the rest is as before.
  ghost predicate Shifting(before: Directory, now: Directory, n: nat, keep: nat) {
    && (forall m: nat {:trigger Get(now, Rotated(m))} ::
          Get(now, Rotated(m)) ==
          if m == n then None else if n < m <= keep then Get(before, Rotated(m - 1)) else Get(before, Rotated(m)))
    && Get(now, Active) == Get(before, Active)
  }

  lemma ShiftOne(before: Directory, now: Directory, n: nat, keep: nat)
    requires 1 < n <= keep && Shifting(before, now, n, keep)
    ensures Shifting(before, Moved(now, Rotated(n - 1), Rotated(n)), n - 1, keep)
  {
    var next := Moved(now, Rotated(n - 1), Rotated(n));
    assert Get(now, Rotated(n)) == None && Get(now, Rotated(n - 1)) == Get(before, Rotated(n - 1));
    assert Get(next, Active) == Get(now, Active);
    assert Get(next, Rotated(n)) == Get(now, Rotated(n - 1)) && Get(next, Rotated(n - 1)) == None;
    forall m: nat {:trigger Get(next, Rotated(m))}
      ensures Get(next, Rotated(m)) ==
              if m == n - 1 then None
              else if n - 1 < m <= keep then Get(before, Rotated(m - 1)) else Get(before, Rotated(m))
    {
      assert m != n && m != n - 1 ==> Get(next, Rotated(m)) == Get(now, Rotated(m));
    }
  }

  lemma ShiftLast(before: Directory, now: Directory, n: nat, keep: nat)
    requires n <= 1 && (keep >= 1 ==> n == 1) && n <= keep && Shifting(before, now, n, keep)
    requires Active in before
    ensures ShiftedUp(before, Moved(now, Active, Rotated(1))[Active := []], Max(1, keep))
  {
    var after := Moved(now, Active, Rotated(1))[Active := []];
    assert Active in now;
    forall m: nat | m != 1 ensures Get(after, Rotated(m)) == Get(now, Rotated(m)) {
    }
  }

  class RotatingWriter {
    const maxBytes: nat
    const keep: nat
    var disk: Directory
    var written: nat

    // Every write the log has been given, after what was found at open.
    ghost var logged: seq<Text>
    ghost const found: Directory
    ghost var longest: nat

    function Depth(): nat {
      Max(1, keep)
    }

    ghost predicate Valid()
      reads this
    {
      && Active in disk && written == Size(disk[Active])
      && IsSuffix(Chain(disk, Depth()), logged)
      && Expected(disk, found, Depth())
      && Bounded(disk, found, Bound())
    }

    // The cap, the longest single write, and the active file found at open.
    ghost function Bound(): nat
      reads this
    {
      Max(maxBytes, Max(longest, Size(At(found, Active))))
    }

    constructor (existing: Directory, maxBytes: nat, keep: nat)
      ensures Valid() && this.maxBytes == maxBytes && this.keep == keep && longest == 0
      ensures found == disk == if Active in existing then existing else existing[Active := []]
      ensures logged == Chain(disk, Depth())
    {
      var opened_ := if Active in existing then existing else existing[Active := []];
      this.maxBytes, this.keep := maxBytes, keep;
      disk, written, found, longest := opened_, Size(opened_[Active]), opened_, 0;
      logged := Chain(opened_, Max(1, keep));
      new;
      assert logged[|logged| - |logged|..] == logged;
    }

    method Rotate()
      requires Active in disk
      modifies this`disk, this`written
      ensures ShiftedUp(old(disk), disk, Depth()) && written == 0
    {
      ghost var before := disk;
      // Drop the oldest.
      disk := disk - {Rotated(keep)};
      // Shift the middle files up by one.
      var n: nat := keep;
      while n > 1
        invariant n <= keep && (keep >= 1 ==> n >= 1)
        invariant Shifting(before, disk, n, keep)
      {
        ShiftOne(before, disk, n, keep);
        n := n - 1;
        disk := Moved(disk, Rotated(n), Rotated(n + 1));
      }
      ShiftLast(before, disk, n, keep);
      disk := Moved(disk, Active, Rotated(1));
      disk, written := disk[Active := []], 0;
    }

    // Appends `buf`, after a rotation when it would outgrow the cap.
    method Write(buf: Text) returns (n: nat)
      requires Valid()
      modifies this
      ensures Valid() && n == |buf|
      ensures logged == old(logged) + [buf]
      // It rotates exactly when the file is not empty and would outgrow the cap.
      ensures if old(written) + |buf| > maxBytes && old(written) > 0
              then disk[Active] == [buf] && ShiftedUp(old(disk), disk[Active := []], Depth())
              else disk == old(disk)[Active := old(disk[Active]) + [buf]]
      ensures longest == Max(old(longest), |buf|)
    {
      hide Chain, IsSuffix, Bounded, Expected;
      ghost var before, bound := disk, Bound();
      BoundCovers(disk, found, bound);
      if written + |buf| > maxBytes && written > 0 {
        Rotate();
        ShiftedSuffix(before, disk, Depth(), logged);
        ShiftedBounded(before, disk, found, Depth(), Bound());
      }
      ghost var emptied := disk;
      longest := Max(longest, |buf|);
      AppendBounded(disk, buf, found, Depth(), bound, Bound());
      AppendedChain(disk, Depth(), buf);
      SuffixAppend(Chain(disk, Depth()), logged, buf);
      logged := logged + [buf];
      disk := disk[Active := disk[Active] + [buf]];
      written := written + |buf|;
      n := |buf|;
      assert old(written) + |buf| > maxBytes && old(written) > 0 ==> disk[Active := []] == emptied;
    }

    // Any run of writes.
    method WriteAll(bufs: seq<Text>)
      requires Valid()
      modifies this
      ensures Valid() && logged == old(logged) + bufs
    {
      hide Bounded, Expected, Chain, IsSuffix;
      for i := 0 to |bufs|
        invariant Valid() && logged == old(logged) + bufs[..i]
      {
        var _ := Write(bufs[i]);
      }
    }
  }

  // ---- the argument digest's input ----------------------------------------------------

  // Arguments with a NUL between two of them.
  function Join(argv: seq<Text>): Text {
    if argv == [] then []
    else if |argv| == 1 then argv[0]
    else argv[0] + [0] + Join(argv[1..])
  }

  // The pieces between NULs.
  function SplitAtNul(t: Text): (pieces: seq<Text>)
    ensures pieces != []
  {
    if t == [] then [[]]
    else
      var rest := SplitAtNul(t[1..]);
      if t[0] == 0 then [[]] + rest else [[t[0]] + rest[0]] + rest[1..]
  }

  predicate NulFree(argv: seq<Text>) {
    forall a | a in argv :: 0 !in a
  }

  lemma {:induction false} JoinAppend(argv: seq<Text>, last: Text)
    requires argv != []
    ensures Join(argv + [last]) == Join(argv) + [0] + last
  {
    assert (argv + [last])[1..] == argv[1..] + [last];
    if |argv| > 1 {
      JoinAppend(argv[1..], last);
      assert argv[0] + [0] + (Join(argv[1..]) + [0] + last) == argv[0] + [0] + Join(argv[1..]) + [0] + last;
    } else {
      assert argv[1..] + [last] == [last];
    }
  }

  // The bytes fed to the hasher.
  method ArgvPreimage(argv: seq<Text>) returns (fed: Text)
    ensures fed == Join(argv)
  {
    fed := [];
    for i := 0 to |argv|
      invariant fed == Join(argv[..i])
    {
      assert argv[..i + 1] == argv[..i] + [argv[i]];
      if i > 0 {
        JoinAppend(argv[..i], argv[i]);
        fed := fed + [0];
      }
      fed := fed + argv[i];
    }
    assert argv[..|argv|] == argv;
  }

  lemma {:induction false} SplitPiece(a: Text, rest: Text)
    requires 0 !in a
    ensures SplitAtNul(a + [0] + rest) == [a] + SplitAtNul(rest)
    ensures SplitAtNul(a) == [a]
  {
    if a == [] {
      assert a + [0] + rest == [0] + rest;
    } else {
      assert (a + [0] + rest)[1..] == a[1..] + [0] + rest;
      assert forall b | b in a[1..] :: b in a;
      SplitPiece(a[1..], rest);
      assert a == [a[0]] + a[1..];
    }
  }

  // Splitting at NUL undoes the join of one or more NUL-free arguments.
  lemma {:induction false} SplitUndoesJoin(argv: seq<Text>)
    requires argv != [] && NulFree(argv)
    ensures SplitAtNul(Join(argv)) == argv
  {
    assert argv[0] in argv && forall a | a in argv[1..] :: a in argv;
    if |argv| == 1 {
      SplitPiece(argv[0], []);
    } else {
      SplitPiece(argv[0], Join(argv[1..]));
      SplitUndoesJoin(argv[1..]);
      assert argv == [argv[0]] + argv[1..];
    }
  }

  // Two argument vectors feed the hasher the same bytes exactly when they are equal, or when
  // one is empty and the other holds one empty argument.
  lemma SamePreimageExactly(a: seq<Text>, b: seq<Text>)
    requires NulFree(a) && NulFree(b)
    ensures Join(a) == Join(b) <==> a == b || (a in {[], [[]]} && b in {[], [[]]})
  {
    if a != [] {
      SplitUndoesJoin(a);
    }
    if b != [] {
      SplitUndoesJoin(b);
    }
    assert SplitAtNul([]) == [[]];
  }
}
