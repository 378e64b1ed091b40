// ByteChannel (junction/base/byte_channel.h), as called by one thread at a
// time. `x & mask_` is the remainder by the size, which is a power of two
// (Modular.MaskIsRemainder).
module ByteChannel {
  import opened Common
  import opened IoVectors
  import opened Modular

  // --- The ring's contents ---

  ghost function RingContents(b: seq<Byte>, out: nat, n: nat): (c: seq<Byte>)
    requires |b| > 0
    ensures |c| == n
  {
    seq(n, i requires 0 <= i < n => b[(out + i) % |b|])
  }

  lemma RingIndex(size: nat, out: nat, i: nat)
    requires size > 0 && i <= size
    ensures var p := out % size;
            (out + i) % size == if p + i < size then p + i else p + i - size
  {
    var p := out % size;
    assert out == size * (out / size) + p;
    if p + i < size {
      ModUnique(out + i, size, out / size, p + i);
    } else if p + i < 2 * size {
      assert out + i == size * (out / size + 1) + (p + i - size);
      ModUnique(out + i, size, out / size + 1, p + i - size);
    }
  }

  // The contents are one or two slices of the buffer.
  lemma RingSlices(b: seq<Byte>, out: nat, n: nat)
    requires |b| > 0 && n <= |b|
    ensures var p := out % |b|;
            RingContents(b, out, n) == if p + n <= |b| then b[p..p + n] else b[p..] + b[..p + n - |b|]
  {
    var p := out % |b|;
    var slices := if p + n <= |b| then b[p..p + n] else b[p..] + b[..p + n - |b|];
    forall i | 0 <= i < n ensures RingContents(b, out, n)[i] == slices[i] {
      RingIndex(|b|, out, i);
    }
    assert RingContents(b, out, n) == slices;
  }

  lemma RingPrefix(b: seq<Byte>, out: nat, n: nat, k: nat)
    requires |b| > 0 && k <= n
    ensures RingContents(b, out, k) == RingContents(b, out, n)[..k]
  {
  }

  // Consuming k bytes.
  lemma ReadAdvances(b: seq<Byte>, out: nat, n: nat, k: nat)
    requires IsRingSize(|b|) && k <= n
    ensures RingContents(b, (out + k) % WORD, n - k) == RingContents(b, out, n)[k..]
  {
    var next := (out + k) % WORD;
    var rest := RingContents(b, next, n - k);
    var c := RingContents(b, out, n)[k..];
    forall i | 0 <= i < |rest| ensures rest[i] == c[i] {
      WrapKeepsIndex(out + k, i, |b|);
      assert out + (k + i) == out + k + i;
    }
    assert rest == c;
  }

  // The buffer after `data` was stored from index p on, wrapping at the end.
  ghost function Stored(b: seq<Byte>, p: nat, data: seq<Byte>): (r: seq<Byte>)
    requires p < |b| && |data| <= |b|
    ensures |r| == |b|
  {
    var toEnd := |b| - p;
    if |data| <= toEnd then b[..p] + data + b[p + |data|..]
    else data[toEnd..] + b[|data| - toEnd..p] + data[..toEnd]
  }

  lemma StoreOnce(b: seq<Byte>, p: nat, data: seq<Byte>)
    requires p < |b| && p + |data| <= |b|
    ensures Stored(b, p, data) == Spliced(b, p, data)
  {
  }

  lemma StoreTwice(b: seq<Byte>, p: nat, s: seq<Byte>, t: seq<Byte>)
    requires p < |b| && p + |s| == |b| && 0 < |t| && |s| + |t| <= |b|
    ensures Stored(b, p, s + t) == Spliced(Spliced(b, p, s), 0, t)
  {
    assert (s + t)[|b| - p..] == t && (s + t)[..|b| - p] == s;
    assert Spliced(b, p, s) == b[..p] + s;
    assert Spliced(b[..p] + s, 0, t) == t + b[|t|..p] + s;
  }

  // Publishing `data` after the n bytes already there.
  lemma WriteExtends(b: seq<Byte>, out: nat, n: nat, data: seq<Byte>)
    requires IsRingSize(|b|) && n + |data| <= |b|
    ensures RingContents(Stored(b, (out + n) % WORD % |b|, data), out, n + |data|) ==
            RingContents(b, out, n) + data
  {
    hide Stored;
    var p := (out + n) % WORD % |b|;
    var c := Stored(b, p, data);
    assert p == (out + n) % |b| by { WrapKeepsIndex(out + n, 0, |b|); }
    var after := RingContents(c, out, n + |data|);
    var sum := RingContents(b, out, n) + data;
    forall i | 0 <= i < |after| ensures after[i] == sum[i] {
      if i < n {
        StoredElsewhere(b, p, data, out, n, i);
      } else {
        StoredThere(b, p, data, out, n, i);
      }
    }
    assert after == sum;
  }

  lemma StoredThere(b: seq<Byte>, p: nat, data: seq<Byte>, out: nat, n: nat, i: nat)
    requires |b| > 0 && n <= i < n + |data| <= |b| && p == (out + n) % |b|
    ensures Stored(b, p, data)[(out + i) % |b|] == data[i - n]
  {
    RingIndex(|b|, out + n, i - n);
    assert out + n + (i - n) == out + i;
  }

  // Storing does not touch the bytes that are still unread.
  lemma StoredElsewhere(b: seq<Byte>, p: nat, data: seq<Byte>, out: nat, n: nat, i: nat)
    requires |b| > 0 && i < n && n + |data| <= |b| && p == (out + n) % |b|
    ensures Stored(b, p, data)[(out + i) % |b|] == b[(out + i) % |b|]
  {
    RingIndex(|b|, out, i);
    RingIndex(|b|, out, n);
  }

  // std::bit_ceil, by its exponent.
  function CeilExponent(n: nat, k: nat): (r: nat)
    requires n > 0 && (k > 0 ==> Pow2(k - 1) < n)
    ensures n <= Pow2(r) && (r > 0 ==> Pow2(r - 1) < n)
    decreases n - Pow2(k)
  {
    if n <= Pow2(k) then k else CeilExponent(n, k + 1)
  }

  // --- The vectored calls ---

  // The one or two stretches of the buffer that hold n ring positions from p.
  function Stretches(size: nat, p: nat, n: nat): (v: seq<IoVec>)
    requires p < size && n <= size
    ensures InBounds(v, size)
  {
    if n > size - p then [IoVec(p, size - p), IoVec(0, n - (size - p))] else [IoVec(p, n)]
  }

  lemma StretchAddrs(size: nat, p: nat, n: nat)
    requires p < size && n <= size
    ensures Addrs(Stretches(size, p, n)) ==
            if n > size - p then Run(p, size - p) + Run(0, n - (size - p)) else Run(p, n)
  {
    var v := Stretches(size, p, n);
    if n > size - p {
      assert Addrs(v[1..]) == Run(0, n - (size - p)) + [] by { assert v[1..][1..] == []; }
    } else {
      assert v[1..] == [];
    }
  }

  // Gathering the filled stretches gives the contents.
  lemma StretchesHoldContents(b: seq<Byte>, out: nat, n: nat)
    requires |b| > 0 && n <= |b|
    ensures var a := Addrs(Stretches(|b|, out % |b|, n));
            AddrsBelow(a, |b|) && Gather(b, a) == RingContents(b, out, n)
  {
    hide RingContents;
    var p := out % |b|;
    var a := Addrs(Stretches(|b|, p, n));
    StretchAddrs(|b|, p, n);
    RingSlices(b, out, n);
    if n > |b| - p {
      GatherRun(b, p, |b| - p, Run(0, n - (|b| - p)));
    }
  }

  // Scattering over the free stretches is storing from p on.
  lemma ScatterOverStretches(b: seq<Byte>, p: nat, n: nat, data: seq<Byte>)
    requires p < |b| && |data| <= n <= |b|
    ensures var a := Addrs(Stretches(|b|, p, n));
            AddrsBelow(a, |b|) && |a| == n && Scatter(b, a, data) == Stored(b, p, data)
  {
    hide Scatter, Spliced, Stored;
    var toEnd := |b| - p;
    StretchAddrs(|b|, p, n);
    if |data| <= toEnd {
      StoreOnce(b, p, data);
      if n > toEnd {
        ScatterPrefix(b, p, data, toEnd, Run(0, n - toEnd));
      } else {
        ScatterPrefix(b, p, data, n, []);
        assert Run(p, n) + [] == Run(p, n);
      }
    } else {
      var s, t := data[..toEnd], data[toEnd..];
      assert data == s + t;
      ScatterRun(b, p, s, Run(0, n - toEnd), t);
      ScatterPrefix(Spliced(b, p, s), 0, t, n - toEnd, []);
      assert Run(0, n - toEnd) + [] == Run(0, n - toEnd);
      StoreTwice(b, p, s, t);
    }
  }

  class ByteChannel {
    var inn: nat
    var out: nat
    const size: nat
    const buf: array<Byte>

    ghost predicate Valid()
      reads this, buf
    {
      && buf.Length == size && IsRingSize(size) && inn < WORD && out < WORD
      && Readable() <= size && inn == (out + Readable()) % WORD
    }

    function Readable(): nat
      reads this
      requires inn < WORD && out < WORD
    {
      Sub64(inn, out)
    }

    ghost function Contents(): (c: seq<Byte>)
      reads this, buf
      requires Valid()
    {
      RingContents(buf[..], out, Readable())
    }

    // The size is rounded up to a power of two.
    constructor (n: nat)
      requires n <= Pow2(63)
      ensures Valid() && Contents() == [] && fresh(buf) && out == 0
      ensures n <= size && (size == 1 || size < 2 * n)
    {
      var k := CeilExponent(Max(n, 1), 0);
      if k > 63 {
        Pow2Grows(63, k);
        if 63 < k - 1 { Pow2Grows(63, k - 1); }
      }
      RingSizes(k);
      inn, out, size := 0, 0, Pow2(k);
      buf := new Byte[Pow2(k)](i => 0);
    }

    method Read(dst: array<Byte>, peek: bool) returns (r: Result<nat, Errno>)
      requires Valid() && dst != buf
      modifies this, dst
      ensures Valid() && buf[..] == old(buf[..])
      ensures var n := Min(|old(Contents())|, dst.Length);
              if n == 0 then
                r == Err(EAGAIN) && Contents() == old(Contents()) && dst[..] == old(dst[..])
              else
                && r == Ok(n) && dst[..] == old(Contents())[..n] + old(dst[..])[n..]
                && Contents() == if peek then old(Contents()) else old(Contents())[n..]
    {
      hide RingContents;
      var n := Min(Sub64(inn, out), dst.Length);
      if n == 0 {
        return Err(EAGAIN);
      }
      RingPrefix(buf[..], out, Readable(), n);
      CopyOut(n, dst);
      if !peek {
        Consume(n);
      }
      return Ok(n);
    }

    // The bytes leave in one copy, or in two when they run past the end.
    method CopyOut(n: nat, dst: array<Byte>)
      requires Valid() && dst != buf && n <= size && n <= dst.Length
      modifies dst
      ensures dst[..] == RingContents(buf[..], out, n) + old(dst[..])[n..]
    {
      hide RingContents, Spliced, Sub64;
      var p := out % size;
      var toEnd := size - p;
      ghost var c := RingContents(buf[..], out, n);
      if n > toEnd {
        assert c == buf[p..p + toEnd] + buf[0..n - toEnd] by { RingSlices(buf[..], out, n); }
        SpliceTwice(dst[..], buf[p..p + toEnd], buf[0..n - toEnd]);
        CopyN(buf, p, toEnd, dst, 0);
        CopyN(buf, 0, n - toEnd, dst, toEnd);
      } else {
        assert c == buf[p..p + n] by { RingSlices(buf[..], out, n); }
        SpliceAtZero(dst[..], buf[p..p + n]);
        CopyN(buf, p, n, dst, 0);
      }
    }

    // The store to out_.
    method Consume(n: nat)
      requires Valid() && n <= Readable()
      modifies this`out
      ensures Valid() && Contents() == old(Contents())[n..]
    {
      ReadAdvances(buf[..], out, Readable(), n);
      CounterAdvances(inn, out, Readable(), n);
      out := (out + n) % WORD;
    }

    method Write(src: array<Byte>) returns (r: Result<nat, Errno>)
      requires Valid() && src != buf
      modifies this, buf
      ensures Valid() && src[..] == old(src[..])
      ensures var n := Min(size - |old(Contents())|, src.Length);
              if n == 0 then r == Err(EAGAIN) && Contents() == old(Contents())
              else r == Ok(n) && Contents() == old(Contents()) + src[..n]
    {
      hide RingContents, Stored;
      var n := Min(size - Sub64(inn, out), src.Length);
      if n == 0 {
        return Err(EAGAIN);
      }
      ghost var b := buf[..];
      CopyIn(src, n);
      Publish(n, b, src[..n]);
      return Ok(n);
    }

    method CopyIn(src: array<Byte>, n: nat)
      requires Valid() && src != buf && n <= size && n <= src.Length
      modifies buf
      ensures buf[..] == Stored(old(buf[..]), inn % size, src[..n])
    {
      hide Spliced, Stored;
      var p := inn % size;
      var toEnd := size - p;
      if n > toEnd {
        StoreTwice(buf[..], p, src[0..toEnd], src[toEnd..n]);
        assert src[0..toEnd] + src[toEnd..n] == src[..n];
        CopyN(src, 0, toEnd, buf, p);
        CopyN(src, toEnd, n - toEnd, buf, 0);
      } else {
        StoreOnce(buf[..], p, src[0..n]);
        assert src[0..n] == src[..n];
        CopyN(src, 0, n, buf, p);
      }
    }

    // The store to in_, once the bytes are in the buffer.
    method Publish(n: nat, ghost was: seq<Byte>, ghost data: seq<Byte>)
      requires Valid() && |was| == size && n == |data| && Readable() + n <= size
      requires buf[..] == Stored(was, inn % size, data)
      modifies this`inn
      ensures Valid() && Contents() == RingContents(was, out, old(Readable())) + data
    {
      hide RingContents, Stored, Sub64;
      WriteExtends(was, out, Readable(), data);
      CounterExtends(inn, out, Readable(), n);
      inn := (inn + n) % WORD;
    }

    // Unlike Read, a call with no room in the iovecs returns zero bytes.
    method Readv(mem: array<Byte>, iov: seq<IoVec>, peek: bool) returns (r: Result<nat, Errno>)
      requires Valid() && mem != buf && InBounds(iov, mem.Length)
      modifies this, mem
      ensures Valid() && buf[..] == old(buf[..])
      ensures AddrsBelow(Addrs(iov), mem.Length)
      ensures var c := old(Contents());
              var n := Min(|c|, |Addrs(iov)|);
              if |c| == 0 then
                r == Err(EAGAIN) && Contents() == c && mem[..] == old(mem[..])
              else
                && r == Ok(n) && mem[..] == Scatter(old(mem[..]), Addrs(iov), c[..n])
                && Contents() == if peek then c else c[n..]
    {
      hide RingContents, Addrs, Gather, Scatter;
      AddrsInBounds(iov, mem.Length);
      var n := Sub64(inn, out);
      if n == 0 {
        return Err(EAGAIN);
      }
      StretchesHoldContents(buf[..], out, n);
      var copied := GenericCopyv(buf, Stretches(size, out % size, n), mem, iov);
      if !peek {
        Consume(copied);
      }
      return Ok(copied);
    }

    method Writev(mem: array<Byte>, iov: seq<IoVec>) returns (r: Result<nat, Errno>)
      requires Valid() && mem != buf && InBounds(iov, mem.Length)
      modifies this, buf
      ensures Valid() && mem[..] == old(mem[..])
      ensures AddrsBelow(Addrs(iov), mem.Length)
      ensures var free := size - |old(Contents())|;
              var n := Min(free, |Addrs(iov)|);
              if free == 0 then r == Err(EAGAIN) && Contents() == old(Contents())
              else r == Ok(n) && Contents() == old(Contents()) + Gather(mem[..], Addrs(iov))[..n]
    {
      hide RingContents, Addrs, Gather, Scatter, Stored;
      AddrsInBounds(iov, mem.Length);
      var n := size - Sub64(inn, out);
      if n == 0 {
        return Err(EAGAIN);
      }
      ghost var b := buf[..];
      ScatterOverStretches(b, inn % size, n, []);
      ghost var data := Gather(mem[..], Addrs(iov))[..Min(n, |Addrs(iov)|)];
      ScatterOverStretches(b, inn % size, n, data);
      var copied := GenericCopyv(mem, iov, buf, Stretches(size, inn % size, n));
      Publish(copied, b, data);
      return Ok(copied);
    }

    // The two archived segments.
    method Save() returns (seg1: seq<Byte>, seg2: seq<Byte>)
      requires Valid()
      ensures seg1 + seg2 == Contents()
    {
      hide RingContents;
      var sz, p := Sub64(inn, out), out % size;
      var len1 := Min(size - p, sz);
      RingSlices(buf[..], out, sz);
      seg1, seg2 := buf[p..p + len1], buf[..sz - len1];
    }

    // Loading into a channel as the constructor left it.
    method Load(seg1: seq<Byte>, seg2: seq<Byte>)
      requires Valid() && out == 0 && |seg1| + |seg2| <= size
      modifies this`inn, buf
      ensures Valid() && Contents() == seg1 + seg2
    {
      hide RingContents, Spliced;
      var n := |seg1| + |seg2|;
      LoadedContents(buf[..], seg1, seg2);
      CopySeq(seg1, buf, 0);
      CopySeq(seg2, buf, |seg1|);
      inn := n;
    }
  }

  lemma LoadedContents(b: seq<Byte>, s: seq<Byte>, t: seq<Byte>)
    requires |b| > 0 && |s| + |t| <= |b|
    ensures RingContents(Spliced(Spliced(b, 0, s), |s|, t), 0, |s| + |t|) == s + t
  {
    hide RingContents, Spliced;
    SpliceTwice(b, s, t);
    RingSlices(Spliced(Spliced(b, 0, s), |s|, t), 0, |s| + |t|);
  }

  lemma CounterExtends(inn: nat, out: nat, n: nat, k: nat)
    requires inn < WORD && out < WORD && n + k < WORD && inn == (out + n) % WORD
    ensures Sub64((inn + k) % WORD, out) == n + k
    ensures (inn + k) % WORD == (out + (n + k)) % WORD
  {
    WrappedAdvance(out + n, k);
    assert out + n + k == out + (n + k);
    WrappedDifference(out + n + k, out);
  }

  lemma CounterAdvances(inn: nat, out: nat, n: nat, k: nat)
    requires inn < WORD && out < WORD && k <= n <= WORD - 1 && inn == (out + n) % WORD
    ensures Sub64(inn, (out + k) % WORD) == n - k
    ensures inn == ((out + k) % WORD + (n - k)) % WORD
  {
    WrappedDifference(out + n, out + k);
    WrappedAdvance(out + k, n - k);
    assert out + k + (n - k) == out + n;
  }
}
