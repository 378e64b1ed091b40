// ByteChannel shared by one reader thread and one writer thread
// (junction/base/byte_channel.h): every load, byte copy and store of a call is
// its own step and the two threads interleave freely. Steps are sequentially
// consistent; the counters wrap modulo 2^64.
module RingProtocol {
  import opened Common
  import opened Modular
  import opened IoVectors
  import ByteChannel

  // A call between its first load and its last store. `todo` is what a write
  // will publish and k how much of it is in the buffer; a read has copied got
  // of the n bytes it will return.
  datatype Writer = WIdle | WLoaded(inn: nat) | WCopying(inn: nat, todo: seq<Byte>, k: nat)
  datatype Reader = RIdle | RLoaded(inn: nat) | RCopying(out: nat, n: nat, got: seq<Byte>, peek: bool)

  // published and consumed record the bytes of all stores to in_ and out_.
  datatype Ring = Ring(
    buf: seq<Byte>, inn: nat, out: nat, w: Writer, r: Reader,
    published: seq<Byte>, consumed: seq<Byte>)

  datatype Step =
    | WLoadIn
    | WLoadOut(data: seq<Byte>, vectored: bool)
    | WCopyByte
    | WStoreIn
    | RLoadIn
    | RLoadOut(len: nat, peek: bool, vectored: bool)
    | RCopyByte
    | RStoreOut

  predicate Enabled(s: Ring, a: Step) {
    match a
    case WLoadIn => s.w.WIdle?
    case WLoadOut(_, _) => s.w.WLoaded?
    case WCopyByte => s.w.WCopying? && s.w.k < |s.w.todo|
    case WStoreIn => s.w.WCopying? && s.w.k == |s.w.todo|
    case RLoadIn => s.r.RIdle?
    case RLoadOut(_, _, _) => s.r.RLoaded?
    case RCopyByte => s.r.RCopying? && |s.r.got| < s.r.n
    case RStoreOut => s.r.RCopying? && |s.r.got| == s.r.n
  }

  ghost predicate Shape(s: Ring) {
    && IsRingSize(|s.buf|) && s.inn < WORD && s.out < WORD
    && (s.w.WLoaded? || s.w.WCopying? ==> s.w.inn < WORD)
    && (s.r.RLoaded? ==> s.r.inn < WORD)
  }

  // A plain call gives up (EAGAIN) when there is nothing to copy, a vectored
  // one only when the ring itself is full or empty.
  function Apply(s: Ring, a: Step): (t: Ring)
    requires Enabled(s, a) && 0 < |s.buf| < WORD && s.inn < WORD && s.out < WORD
    requires s.w.WLoaded? ==> s.w.inn < WORD
    requires s.r.RLoaded? ==> s.r.inn < WORD
    ensures Shape(s) ==> Shape(t)
  {
    match a
    case WLoadIn => s.(w := WLoaded(s.inn))
    case WLoadOut(data, vectored) =>
      var free := Sub64(|s.buf|, Sub64(s.w.inn, s.out));
      var n := Min(free, |data|);
      if (if vectored then free else n) == 0 then s.(w := WIdle)
      else s.(w := WCopying(s.w.inn, data[..n], 0))
    case WCopyByte =>
      s.(buf := s.buf[(s.w.inn + s.w.k) % |s.buf| := s.w.todo[s.w.k]], w := s.w.(k := s.w.k + 1))
    case WStoreIn =>
      s.(inn := (s.w.inn + |s.w.todo|) % WORD, w := WIdle, published := s.published + s.w.todo)
    case RLoadIn => s.(r := RLoaded(s.inn))
    case RLoadOut(len, peek, vectored) =>
      var avail := Sub64(s.r.inn, s.out);
      var n := Min(avail, len);
      if (if vectored then avail else n) == 0 then s.(r := RIdle)
      else s.(r := RCopying(s.out, n, [], peek))
    case RCopyByte =>
      s.(r := s.r.(got := s.r.got + [s.buf[(s.r.out + |s.r.got|) % |s.buf|]]))
    case RStoreOut =>
      if s.r.peek then s.(r := RIdle)
      else s.(out := (s.r.out + s.r.n) % WORD, r := RIdle, consumed := s.consumed + s.r.got)
  }

  // --- The invariant ---

  ghost predicate CountersOk(s: Ring) {
    && |s.consumed| <= |s.published| <= |s.consumed| + |s.buf|
    && s.inn == |s.published| % WORD && s.out == |s.consumed| % WORD
    && s.consumed == s.published[..|s.consumed|]
  }

  ghost predicate BytesOk(s: Ring)
    requires |s.buf| > 0
  {
    forall i | |s.consumed| <= i < |s.published| :: s.buf[i % |s.buf|] == s.published[i]
  }

  ghost predicate WriterOk(s: Ring)
    requires |s.buf| > 0
  {
    match s.w
    case WIdle => true
    case WLoaded(inn) => inn == s.inn
    case WCopying(inn, todo, k) =>
      && inn == s.inn && k <= |todo| && |s.published| + |todo| <= |s.consumed| + |s.buf|
      && forall i | 0 <= i < k :: s.buf[(|s.published| + i) % |s.buf|] == todo[i]
  }

  ghost predicate ReaderOk(s: Ring)
    requires Shape(s) && |s.consumed| <= |s.published|
  {
    var c, p := |s.consumed|, |s.published|;
    match s.r
    case RIdle => true
    case RLoaded(inn) => Sub64(inn, s.out) <= p - c
    case RCopying(out, n, got, _) =>
      out == s.out && |got| <= n <= p - c && got == s.published[c..c + |got|]
  }

  ghost predicate Inv(s: Ring) {
    Shape(s) && CountersOk(s) && BytesOk(s) && WriterOk(s) && ReaderOk(s)
  }

  // A new channel, or one just loaded from a snapshot.
  ghost predicate Init(s: Ring) {
    && IsRingSize(|s.buf|) && s.w.WIdle? && s.r.RIdle? && s.consumed == [] && s.out == 0
    && |s.published| <= |s.buf| && s.inn == |s.published| && s.published == s.buf[..|s.published|]
  }

  lemma InitOk(s: Ring)
    requires Init(s)
    ensures Inv(s)
  {
    ModUnique(|s.published|, WORD, 0, |s.published|);
    forall i | 0 <= i < |s.published| ensures s.buf[i % |s.buf|] == s.published[i] {
      ModUnique(i, |s.buf|, 0, i);
    }
  }

  // What the writer and the reader compute from their loads.
  lemma Occupancy(s: Ring)
    requires Shape(s) && CountersOk(s)
    ensures Sub64(s.inn, s.out) == |s.published| - |s.consumed|
  {
    WrappedDifference(|s.published|, |s.consumed|);
  }

  // The position a writer fills is not one that holds an unread byte, nor one
  // it has already filled.
  lemma FreshPosition(s: Ring, i: nat)
    requires Inv(s) && Enabled(s, WCopyByte) && |s.consumed| <= i < |s.published| + s.w.k
    ensures i % |s.buf| != (s.w.inn + s.w.k) % |s.buf|
  {
    WrapKeepsIndex(|s.published|, s.w.k, |s.buf|);
    IndexDistinct(i, |s.published| + s.w.k, |s.buf|);
  }

  lemma CopyByteBytes(s: Ring)
    requires Inv(s) && Enabled(s, WCopyByte)
    ensures BytesOk(Apply(s, WCopyByte))
  {
    hide WriterOk, ReaderOk;
    var t := Apply(s, WCopyByte);
    forall i | |s.consumed| <= i < |s.published| ensures t.buf[i % |s.buf|] == s.published[i] {
      FreshPosition(s, i);
      UnreadByte(s, i);
    }
  }

  lemma UnreadByte(s: Ring, i: nat)
    requires Inv(s) && |s.consumed| <= i < |s.published|
    ensures s.buf[i % |s.buf|] == s.published[i]
  {
  }

  lemma CopyByteWriter(s: Ring)
    requires Inv(s) && Enabled(s, WCopyByte)
    ensures WriterOk(Apply(s, WCopyByte))
  {
    hide BytesOk, ReaderOk;
    var t := Apply(s, WCopyByte);
    var p, k, size := |s.published|, s.w.k, |s.buf|;
    forall i | 0 <= i < k + 1 ensures t.buf[(p + i) % size] == t.w.todo[i] {
      if i < k { FreshPosition(s, p + i); } else { WrapKeepsIndex(p, k, size); }
    }
  }

  lemma CopyByteKeeps(s: Ring)
    requires Inv(s) && Enabled(s, WCopyByte)
    ensures Inv(Apply(s, WCopyByte))
  {
    hide BytesOk, WriterOk;
    CopyByteBytes(s);
    CopyByteWriter(s);
  }

  lemma StoreInKeeps(s: Ring)
    requires Inv(s) && Enabled(s, WStoreIn)
    ensures Inv(Apply(s, WStoreIn))
  {
    var t := Apply(s, WStoreIn);
    var p, size := |s.published|, |s.buf|;
    WrappedAdvance(p, |s.w.todo|);
    forall i | |t.consumed| <= i < |t.published| ensures t.buf[i % size] == t.published[i] {
      if i >= p { assert s.buf[(p + (i - p)) % size] == s.w.todo[i - p]; }
    }
  }

  lemma StoreOutKeeps(s: Ring)
    requires Inv(s) && Enabled(s, RStoreOut)
    ensures Inv(Apply(s, RStoreOut))
  {
    var c := |s.consumed|;
    WrappedAdvance(c, s.r.n);
    assert s.published[..c] + s.published[c..c + s.r.n] == s.published[..c + s.r.n];
    if !s.r.peek {
      var t := Apply(s, RStoreOut);
      assert t.consumed == s.published[..c + s.r.n] && |t.consumed| == c + s.r.n;
      assert CountersOk(t);
      assert WriterOk(t);
    }
  }

  lemma ReadByteKeeps(s: Ring)
    requires Inv(s) && Enabled(s, RCopyByte)
    ensures Inv(Apply(s, RCopyByte))
  {
    var c, k := |s.consumed|, |s.r.got|;
    WrapKeepsIndex(c, k, |s.buf|);
    assert s.published[c..c + k] + [s.published[c + k]] == s.published[c..c + k + 1];
  }

  lemma LoadKeeps(s: Ring, a: Step)
    requires Inv(s) && Enabled(s, a) && (a.WLoadIn? || a.WLoadOut? || a.RLoadIn? || a.RLoadOut?)
    ensures Inv(Apply(s, a))
  {
    Occupancy(s);
  }

  lemma StepKeeps(s: Ring, a: Step)
    requires Inv(s) && Enabled(s, a)
    ensures Inv(Apply(s, a))
  {
    hide Inv;
    match a
    case WCopyByte => CopyByteKeeps(s);
    case WStoreIn => StoreInKeeps(s);
    case RCopyByte => ReadByteKeeps(s);
    case RStoreOut => StoreOutKeeps(s);
    case _ => LoadKeeps(s, a);
  }

  // --- Whole runs ---

  ghost predicate IsRun(states: seq<Ring>, steps: seq<Step>) {
    && |states| == |steps| + 1 && Init(states[0])
    && forall i | 0 <= i < |steps| :: Shape(states[i]) && Enabled(states[i], steps[i])
         && states[i + 1] == Apply(states[i], steps[i])
  }

  lemma {:induction false} RunKeeps(states: seq<Ring>, steps: seq<Step>, i: nat)
    requires IsRun(states, steps) && i < |states|
    ensures Inv(states[i])
  {
    if i == 0 {
      InitOk(states[0]);
    } else {
      RunKeeps(states, steps, i - 1);
      StepKeeps(states[i - 1], steps[i - 1]);
      assert states[i - 1 + 1] == Apply(states[i - 1], steps[i - 1]);
    }
  }

  // The consumed bytes are a prefix of the published ones, the rest is in the
  // ring in order, there is never more of it than the size, and a read that
  // completes returns the next bytes.
  lemma RingSafe(states: seq<Ring>, steps: seq<Step>, i: nat)
    requires IsRun(states, steps) && i < |states|
    ensures var s := states[i];
            && Shape(s) && s.consumed <= s.published
            && Sub64(s.inn, s.out) == |s.published| - |s.consumed| <= |s.buf|
            && ByteChannel.RingContents(s.buf, s.out, Sub64(s.inn, s.out)) == s.published[|s.consumed|..]
    ensures i < |steps| && steps[i].RStoreOut? ==>
              var s := states[i];
              && |s.consumed| + s.r.n <= |s.published|
              && s.r.got == s.published[|s.consumed|..|s.consumed| + s.r.n]
              && states[i + 1].consumed == if s.r.peek then s.consumed else s.consumed + s.r.got
  {
    RunKeeps(states, steps, i);
    var s := states[i];
    Occupancy(s);
    ContentsAre(s);
  }

  lemma ContentsAre(s: Ring)
    requires Inv(s)
    ensures ByteChannel.RingContents(s.buf, s.out, |s.published| - |s.consumed|) == s.published[|s.consumed|..]
  {
    var c := |s.consumed|;
    var ring := ByteChannel.RingContents(s.buf, s.out, |s.published| - c);
    forall i | 0 <= i < |ring| ensures ring[i] == s.published[c..][i] {
      WrapKeepsIndex(c, i, |s.buf|);
    }
    assert ring == s.published[c..];
  }

  // is_empty and is_full, exactly.
  lemma EmptyAndFull(s: Ring)
    requires Inv(s)
    ensures s.inn == s.out <==> s.published == s.consumed
    ensures Sub64(s.inn, s.out) >= |s.buf| <==> |s.published| == |s.consumed| + |s.buf|
    ensures |s.consumed| <= |s.published| <= |s.consumed| + |s.buf|
  {
    Occupancy(s);
  }

  // How much a call takes up. A write takes as many of its bytes as there is
  // room for; a read takes as many as were published when it looked, up to its
  // length. They give up exactly when that is nothing (a vectored call, when
  // there is no room or no byte at all).
  lemma CallAmounts(s: Ring, a: Step)
    requires Inv(s) && Enabled(s, a)
    ensures var t, used := Apply(s, a), |s.published| - |s.consumed|;
            match a
            case WLoadOut(data, vectored) =>
              var n := Min(|s.buf| - used, |data|);
              if used == |s.buf| || (n == 0 && !vectored) then t.w == WIdle else t.w == WCopying(s.inn, data[..n], 0)
            case RLoadOut(len, peek, vectored) =>
              s.r.inn == s.inn ==>
                var n := Min(used, len);
                if used == 0 || (n == 0 && !vectored) then t.r == RIdle else t.r == RCopying(s.out, n, [], peek)
            case RStoreOut => t.consumed == s.consumed + (if s.r.peek then [] else s.r.got)
            case WStoreIn => t.published == s.published + s.w.todo
            case _ => t.published == s.published && t.consumed == s.consumed
  {
    Occupancy(s);
  }

  // The vectored calls name the same ring positions in the same order.
  lemma StretchIndex(size: nat, x: nat, n: nat, i: nat)
    requires size > 0 && i < n <= size
    ensures var a := Addrs(ByteChannel.Stretches(size, x % size, n));
            |a| == n && a[i] == (x + i) % size
  {
    ByteChannel.StretchAddrs(size, x % size, n);
    ByteChannel.RingIndex(size, x, i);
  }
}
