// GenericCopyv (junction/base/io.cc): copying between two lists of buffers.
// A list of iovecs stands for the list of its addresses; gathering reads them
// in order and scattering writes them in order, so buffers that overlap or
// have length zero need no special case.
module IoVectors {
  import opened Common

  type Byte = bv8

  datatype IoVec = IoVec(base: nat, len: nat)

  ghost function Run(base: nat, n: nat): (r: seq<nat>)
    ensures |r| == n
  {
    seq(n, i requires 0 <= i => base + i)
  }

  ghost function Addrs(v: seq<IoVec>): seq<nat> {
    if v == [] then [] else Run(v[0].base, v[0].len) + Addrs(v[1..])
  }

  ghost predicate InBounds(v: seq<IoVec>, size: nat) {
    forall i | 0 <= i < |v| :: v[i].base + v[i].len <= size
  }

  ghost predicate AddrsBelow(a: seq<nat>, size: nat) {
    forall i | 0 <= i < |a| :: a[i] < size
  }

  lemma {:induction false} AddrsInBounds(v: seq<IoVec>, size: nat)
    requires InBounds(v, size)
    ensures AddrsBelow(Addrs(v), size)
  {
    if v != [] {
      AddrsInBounds(v[1..], size);
    }
  }

  ghost function Gather(m: seq<Byte>, a: seq<nat>): (r: seq<Byte>)
    requires AddrsBelow(a, |m|)
    ensures |r| == |a|
  {
    seq(|a|, i requires 0 <= i < |a| => m[a[i]])
  }

  // The memory after data is written to the first |data| addresses, in order.
  ghost function Scatter(m: seq<Byte>, a: seq<nat>, data: seq<Byte>): (r: seq<Byte>)
    requires AddrsBelow(a, |m|) && |data| <= |a|
    ensures |r| == |m|
    decreases |data|
  {
    if data == [] then m else Scatter(m[a[0] := data[0]], a[1..], data[1..])
  }

  // --- What scattering means ---

  lemma {:induction false} ScatterElsewhere(m: seq<Byte>, a: seq<nat>, data: seq<Byte>, x: nat)
    requires AddrsBelow(a, |m|) && |data| <= |a| && x < |m| && x !in a[..|data|]
    ensures Scatter(m, a, data)[x] == m[x]
    decreases |data|
  {
    if data != [] {
      assert a[0] == a[..|data|][0];
      assert a[1..][..|data[1..]|] == a[..|data|][1..];
      ScatterElsewhere(m[a[0] := data[0]], a[1..], data[1..], x);
    }
  }

  // With no address named twice, gathering gives back what was scattered
  // followed by what was there before.
  lemma ScatterGather(m: seq<Byte>, a: seq<nat>, data: seq<Byte>)
    requires AddrsBelow(a, |m|) && |data| <= |a| && Distinct(a)
    ensures Gather(Scatter(m, a, data), a) == data + Gather(m, a)[|data|..]
  {
    forall i | 0 <= i < |a|
      ensures Scatter(m, a, data)[a[i]] == if i < |data| then data[i] else m[a[i]]
    {
      if i < |data| {
        ScatterAt(m, a, data, i);
      } else {
        ScatterElsewhere(m, a, data, a[i]);
      }
    }
  }

  lemma {:induction false} ScatterAt(m: seq<Byte>, a: seq<nat>, data: seq<Byte>, i: nat)
    requires AddrsBelow(a, |m|) && |data| <= |a| && i < |data| && Distinct(a)
    ensures Scatter(m, a, data)[a[i]] == data[i]
    decreases |data|
  {
    if i == 0 {
      ScatterElsewhere(m[a[0] := data[0]], a[1..], data[1..], a[0]);
    } else {
      assert a[1..][i - 1] == a[i] && data[1..][i - 1] == data[i];
      ScatterAt(m[a[0] := data[0]], a[1..], data[1..], i - 1);
    }
  }

  // --- One contiguous copy ---

  // What a copy of s to offset `to` leaves in the destination d.
  ghost function Spliced(d: seq<Byte>, to: nat, s: seq<Byte>): (r: seq<Byte>)
    requires to + |s| <= |d|
    ensures |r| == |d|
  {
    d[..to] + s + d[to + |s|..]
  }

  lemma SpliceAtZero(d: seq<Byte>, s: seq<Byte>)
    requires |s| <= |d|
    ensures Spliced(d, 0, s) == s + d[|s|..]
  {
  }

  lemma SpliceTwice(d: seq<Byte>, s: seq<Byte>, t: seq<Byte>)
    requires |s| + |t| <= |d|
    ensures Spliced(Spliced(d, 0, s), |s|, t) == s + t + d[|s| + |t|..]
  {
  }

  // copy_n between two buffers.
  method CopyN(src: array<Byte>, from: nat, n: nat, dst: array<Byte>, to: nat)
    requires src != dst && from + n <= src.Length && to + n <= dst.Length
    modifies dst
    ensures dst[..] == Spliced(old(dst[..]), to, src[from..from + n])
  {
    var i := 0;
    while i < n
      invariant 0 <= i <= n
      invariant dst[..] == old(dst[..])[..to] + src[from..from + i] + old(dst[..])[to + i..]
    {
      dst[to + i] := src[from + i];
      i := i + 1;
    }
  }

  method CopySeq(s: seq<Byte>, dst: array<Byte>, to: nat)
    requires to + |s| <= dst.Length
    modifies dst
    ensures dst[..] == Spliced(old(dst[..]), to, s)
  {
    var i := 0;
    while i < |s|
      invariant 0 <= i <= |s|
      invariant dst[..] == old(dst[..])[..to] + s[..i] + old(dst[..])[to + i..]
    {
      dst[to + i] := s[i];
      i := i + 1;
    }
  }

  // A copy to consecutive addresses is the first part of a scatter.
  lemma {:induction false} ScatterRun(m: seq<Byte>, to: nat, s: seq<Byte>, a: seq<nat>, t: seq<Byte>)
    requires to + |s| <= |m| && AddrsBelow(a, |m|) && |t| <= |a|
    ensures Scatter(m, Run(to, |s|) + a, s + t) == Scatter(Spliced(m, to, s), a, t)
    decreases |s|
  {
    if s == [] {
      assert Run(to, 0) + a == a && s + t == t && Spliced(m, to, s) == m;
    } else {
      var b := Run(to, |s|) + a;
      assert b[0] == to && b[1..] == Run(to + 1, |s| - 1) + a;
      assert (s + t)[0] == s[0] && (s + t)[1..] == s[1..] + t;
      ScatterRun(m[to := s[0]], to + 1, s[1..], a, t);
      assert Spliced(m[to := s[0]], to + 1, s[1..]) == Spliced(m, to, s);
    }
  }

  lemma GatherRun(m: seq<Byte>, from: nat, n: nat, a: seq<nat>)
    requires from + n <= |m| && AddrsBelow(a, |m|)
    ensures Gather(m, Run(from, n) + a) == m[from..from + n] + Gather(m, a)
  {
  }

  lemma RunSplit(base: nat, n: nat, k: nat)
    requires k <= n
    ensures Run(base, n) == Run(base, k) + Run(base + k, n - k)
  {
  }

  lemma ScatterPrefix(m: seq<Byte>, to: nat, s: seq<Byte>, n: nat, a: seq<nat>)
    requires |s| <= n && to + n <= |m| && AddrsBelow(a, |m|)
    ensures Scatter(m, Run(to, n) + a, s) == Spliced(m, to, s)
  {
    hide Spliced;
    var k := |s|;
    var c := Run(to + k, n - k) + a;
    RunSplit(to, n, k);
    assert Run(to, n) + a == Run(to, k) + c;
    assert s == s + [];
    ScatterRun(m, to, s, c, []);
  }

  // --- The copying loop ---

  ghost function Copied(m: seq<Byte>, from: seq<nat>, d: seq<Byte>, to: seq<nat>): seq<Byte>
    requires AddrsBelow(from, |m|) && AddrsBelow(to, |d|)
  {
    Scatter(d, to, Gather(m, from)[..Min(|from|, |to|)])
  }

  // Copying the first n bytes of both rests leaves the same final memory.
  lemma CopyStep(m: seq<Byte>, src: IoVec, a: seq<nat>, d: seq<Byte>, dst: IoVec, b: seq<nat>, n: nat)
    requires src.base + src.len <= |m| && dst.base + dst.len <= |d|
    requires AddrsBelow(a, |m|) && AddrsBelow(b, |d|) && n <= src.len && n <= dst.len
    ensures var a' := Run(src.base + n, src.len - n) + a;
            var b' := Run(dst.base + n, dst.len - n) + b;
            Copied(m, Run(src.base, src.len) + a, d, Run(dst.base, dst.len) + b) ==
            Copied(m, a', Spliced(d, dst.base, m[src.base..src.base + n]), b')
  {
    var a' := Run(src.base + n, src.len - n) + a;
    var b' := Run(dst.base + n, dst.len - n) + b;
    RunSplit(src.base, src.len, n);
    RunSplit(dst.base, dst.len, n);
    assert Run(src.base, src.len) + a == Run(src.base, n) + a';
    assert Run(dst.base, dst.len) + b == Run(dst.base, n) + b';
    GatherRun(m, src.base, n, a');
    var s := m[src.base..src.base + n];
    var k := Min(|a'|, |b'|);
    assert (s + Gather(m, a'))[..n + k] == s + Gather(m, a')[..k];
    ScatterRun(d, dst.base, s, b', Gather(m, a')[..k]);
  }

  datatype Cursor = Cursor(cur: IoVec, rest: seq<IoVec>) {
    ghost predicate Fits(size: nat) {
      cur.base + cur.len <= size && InBounds(rest, size)
    }

    ghost function Left(): seq<nat> {
      Run(cur.base, cur.len) + Addrs(rest)
    }

    function Next(): Cursor
      requires rest != []
    {
      Cursor(rest[0], rest[1..])
    }

    function Skip(n: nat): Cursor
      requires n <= cur.len
    {
      Cursor(IoVec(cur.base + n, cur.len - n), rest)
    }
  }

  ghost predicate CopyInv(m: seq<Byte>, src: Cursor, d: seq<Byte>, dst: Cursor, all: seq<Byte>) {
    && src.Fits(|m|) && dst.Fits(|d|)
    && AddrsBelow(src.Left(), |m|) && AddrsBelow(dst.Left(), |d|)
    && Copied(m, src.Left(), d, dst.Left()) == all
  }

  lemma LeftBelow(c: Cursor, size: nat)
    requires c.Fits(size)
    ensures AddrsBelow(c.Left(), size)
  {
    AddrsInBounds(c.rest, size);
  }

  lemma NextKeeps(m: seq<Byte>, src: Cursor, d: seq<Byte>, dst: Cursor, all: seq<Byte>)
    requires CopyInv(m, src, d, dst, all)
    ensures src.cur.len == 0 && src.rest != [] ==> CopyInv(m, src.Next(), d, dst, all)
    ensures dst.cur.len == 0 && dst.rest != [] ==> CopyInv(m, src, d, dst.Next(), all)
  {
    hide Cursor.Left, Copied, AddrsBelow;
    if src.cur.len == 0 && src.rest != [] { NextBuffer(src, |m|); }
    if dst.cur.len == 0 && dst.rest != [] { NextBuffer(dst, |d|); }
  }

  lemma NextBuffer(c: Cursor, size: nat)
    requires c.Fits(size) && c.cur.len == 0 && c.rest != []
    ensures c.Next().Fits(size) && c.Next().Left() == c.Left()
  {
    assert Run(c.cur.base, 0) == [];
  }

  lemma CopyBegins(m: seq<Byte>, srcs: seq<IoVec>, d: seq<Byte>, dsts: seq<IoVec>)
    requires InBounds(srcs, |m|) && InBounds(dsts, |d|)
    ensures AddrsBelow(Addrs(srcs), |m|) && AddrsBelow(Addrs(dsts), |d|)
    ensures var src, dst := Cursor(IoVec(0, 0), srcs), Cursor(IoVec(0, 0), dsts);
            && src.Left() == Addrs(srcs) && dst.Left() == Addrs(dsts)
            && CopyInv(m, src, d, dst, Copied(m, Addrs(srcs), d, Addrs(dsts)))
  {
    AddrsInBounds(srcs, |m|);
    AddrsInBounds(dsts, |d|);
    assert Run(0, 0) == [];
  }

  lemma CopyAdvances(m: seq<Byte>, src: Cursor, d: seq<Byte>, dst: Cursor, all: seq<Byte>, n: nat)
    requires CopyInv(m, src, d, dst, all) && n <= src.cur.len && n <= dst.cur.len
    ensures CopyInv(m, src.Skip(n), Spliced(d, dst.cur.base, m[src.cur.base..src.cur.base + n]), dst.Skip(n), all)
    ensures |src.Skip(n).Left()| == |src.Left()| - n && |dst.Skip(n).Left()| == |dst.Left()| - n
  {
    hide Run, Gather, Scatter, Spliced, Copied, Addrs;
    AddrsInBounds(src.rest, |m|);
    AddrsInBounds(dst.rest, |d|);
    LeftBelow(src.Skip(n), |m|);
    LeftBelow(dst.Skip(n), |d|);
    CopyStep(m, src.cur, Addrs(src.rest), d, dst.cur, Addrs(dst.rest), n);
  }

  lemma CopyEnds(m: seq<Byte>, src: Cursor, d: seq<Byte>, dst: Cursor, all: seq<Byte>)
    requires CopyInv(m, src, d, dst, all) && (src.Left() == [] || dst.Left() == [])
    ensures d == all
  {
    assert Min(|src.Left()|, |dst.Left()|) == 0;
  }

  lemma NothingLeft(c: Cursor)
    requires c.cur.len == 0 && c.rest == []
    ensures c.Left() == []
  {
  }

  method GenericCopyv(m: array<Byte>, srcs: seq<IoVec>, d: array<Byte>, dsts: seq<IoVec>)
    returns (read: nat)
    requires m != d && InBounds(srcs, m.Length) && InBounds(dsts, d.Length)
    modifies d
    ensures AddrsBelow(Addrs(srcs), m.Length) && AddrsBelow(Addrs(dsts), d.Length)
    ensures read == Min(|Addrs(srcs)|, |Addrs(dsts)|)
    ensures d[..] == Scatter(old(d[..]), Addrs(dsts), Gather(m[..], Addrs(srcs))[..read])
  {
    hide Run, Gather, Scatter, Spliced, Addrs, AddrsBelow, CopyInv, Cursor.Left;
    CopyBegins(m[..], srcs, d[..], dsts);
    ghost var all := Copied(m[..], Addrs(srcs), d[..], Addrs(dsts));
    hide Copied;
    var src, dst := Cursor(IoVec(0, 0), srcs), Cursor(IoVec(0, 0), dsts);
    read := 0;
    while true
      invariant src.Fits(m.Length) && dst.Fits(d.Length)
      invariant CopyInv(m[..], src, d[..], dst, all)
      invariant read + Min(|src.Left()|, |dst.Left()|) == Min(|Addrs(srcs)|, |Addrs(dsts)|)
      decreases |src.rest| + |dst.rest|, src.cur.len + dst.cur.len
    {
      if src.cur.len == 0 {
        if src.rest == [] {
          NothingLeft(src);
          break;
        }
        NextBuffer(src, m.Length);
        NextKeeps(m[..], src, d[..], dst, all);
        src := src.Next();
      }
      if dst.cur.len == 0 {
        if dst.rest == [] {
          NothingLeft(dst);
          break;
        }
        NextBuffer(dst, d.Length);
        NextKeeps(m[..], src, d[..], dst, all);
        dst := dst.Next();
      }
      var n := Min(src.cur.len, dst.cur.len);
      CopyAdvances(m[..], src, d[..], dst, all, n);
      assert m[..][src.cur.base..src.cur.base + n] == m[src.cur.base..src.cur.base + n];
      CopyN(m, src.cur.base, n, d, dst.cur.base);
      src, dst := src.Skip(n), dst.Skip(n);
      read := read + n;
    }
    CopyEnds(m[..], src, d[..], dst, all);
  }
}
