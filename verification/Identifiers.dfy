// bitmap (junction/base/bitmap.h) and UIDGenerator (junction/base/uid.h). A
// 64-bit word is modelled as the set of positions of its one bits, so that
// `~`, `&` and ffsl are complement, intersection and the least element.
module Identifiers {
  import opened Common

  const BITS := 64

  type Bits = set<nat>

  ghost predicate IsWord(w: Bits) {
    forall b | b in w :: b < BITS
  }

  function UpTo(k: nat): (r: Bits)
    ensures forall b: nat :: b in r <==> b < k
  {
    if k == 0 then {} else UpTo(k - 1) + {k - 1}
  }

  function AllBits(): Bits {
    UpTo(BITS)
  }

  // The bits at shift and above.
  function MaskFrom(shift: nat): Bits {
    AllBits() - UpTo(shift)
  }

  lemma InWord(i: nat, p: nat)
    requires i % BITS == 0 && i <= p < i + BITS
    ensures p / BITS == i / BITS && p % BITS == p - i
  {
  }

  lemma WordStart(pos: nat)
    ensures pos / BITS * BITS <= pos < pos / BITS * BITS + BITS && pos / BITS * BITS % BITS == 0
    ensures pos - pos / BITS * BITS == pos % BITS
  {
  }

  lemma NextWord(i: nat)
    requires i % BITS == 0
    ensures (i + BITS) % BITS == 0
  {
  }

  lemma WordFits(i: nat, n: nat)
    requires i % BITS == 0 && i < n
    ensures n % BITS == 0 ==> i + BITS <= n
  {
  }

  class Bitmap {
    const n: nat
    const words: array<Bits>

    ghost predicate Valid()
      reads this, words
    {
      words.Length == (n + BITS - 1) / BITS && forall i | 0 <= i < words.Length :: IsWord(words[i])
    }

    predicate Test(pos: nat)
      reads this, words
      requires words.Length == (n + BITS - 1) / BITS && pos < n
    {
      pos % BITS in words[pos / BITS]
    }

    constructor (size: nat)
      ensures Valid() && n == size && fresh(words) && forall p: nat | p < n :: !Test(p)
    {
      n := size;
      words := new Bits[(size + BITS - 1) / BITS](i => {});
    }

    method Set(pos: nat)
      requires Valid() && pos < n
      modifies words
      ensures Valid() && forall p: nat | p < n :: Test(p) == (p == pos || old(Test(p)))
    {
      words[pos / BITS] := words[pos / BITS] + {pos % BITS};
    }

    method Clear(pos: nat)
      requires Valid() && pos < n
      modifies words
      ensures Valid() && forall p: nat | p < n :: Test(p) == (p != pos && old(Test(p)))
    {
      words[pos / BITS] := words[pos / BITS] - {pos % BITS};
    }

    // find_next: the first bit at or after pos that is set, or clear if invert.
    method FindNext(invert: bool, pos: nat) returns (r: Option<nat>)
      requires Valid() && pos < n
      ensures r.Some? ==> pos <= r.value < n && Test(r.value) == !invert
      ensures r.Some? ==> forall p: nat | pos <= p < r.value :: Test(p) == invert
      ensures r.None? ==> forall p: nat | pos <= p < n :: Test(p) == invert
    {
      hide UpTo, IsWord, Bitmap.Test;
      WordStart(pos);
      var mask := MaskFrom(pos % BITS);
      var i := pos / BITS * BITS;
      while i < n
        invariant i % BITS == 0
        invariant forall p: nat | pos <= p < n && p < i :: Test(p) == invert
        invariant if i <= pos then pos < i + BITS && mask == MaskFrom(pos - i) else mask == AllBits()
      {
        var val := Candidates(i, invert, mask);
        if val == {} {
          forall p: nat | pos <= p < n && p < i + BITS ensures Test(p) == invert {
            if p >= i { assert Chosen(i, invert, mask, val, p); }
          }
          mask := AllBits();
        } else {
          var ret := i + Least(val);
          forall p: nat | pos <= p < n && p < ret ensures Test(p) == invert {
            if p >= i { assert Chosen(i, invert, mask, val, p); }
          }
          WordFits(i, n);
          if n % BITS != 0 && ret >= n {
            return None;
          }
          assert Chosen(i, invert, mask, val, ret);
          return Some(ret);
        }
        NextWord(i);
        i := i + BITS;
      }
      return None;
    }

    ghost predicate Chosen(i: nat, invert: bool, mask: Bits, val: Bits, p: nat)
      reads this, words
      requires Valid() && i <= p < n
    {
      p - i in val <==> p - i in mask && Test(p) != invert
    }

    // The bits of the word at i to choose from.
    method Candidates(i: nat, invert: bool, mask: Bits) returns (val: Bits)
      requires Valid() && i < n && i % BITS == 0
      ensures val <= mask && forall b | b in val :: b < BITS
      ensures forall p: nat | i <= p < i + BITS && p < n :: Chosen(i, invert, mask, val, p)
    {
      val := words[i / BITS];
      if invert {
        val := AllBits() - val;
      }
      val := val * mask;
      forall p: nat | i <= p < i + BITS && p < n ensures Chosen(i, invert, mask, val, p) {
        InWord(i, p);
      }
    }
  }

  // Hands out the numbers 1 to n, next fit.
  class UIDGenerator {
    var pos: nat
    const bits: Bitmap

    ghost predicate Valid()
      reads this, bits, bits.words
    {
      bits.Valid() && bits.n > 0 && pos < bits.n
    }

    ghost predicate InUse(id: nat)
      reads this, bits, bits.words
      requires Valid()
    {
      0 < id <= bits.n && bits.Test(id - 1)
    }

    constructor (n: nat)
      requires n > 0
      ensures Valid() && bits.n == n && fresh(bits) && fresh(bits.words) && forall id: nat :: !InUse(id)
    {
      pos := 0;
      bits := new Bitmap(n);
    }

    method GetNext() returns (r: Option<nat>)
      requires Valid()
      modifies `pos, bits.words
      ensures Valid()
      ensures r.None? ==> pos == old(pos) && (forall id: nat | pos < id <= bits.n :: old(InUse(id)))
                          && forall id: nat :: InUse(id) == old(InUse(id))
      ensures r.Some? ==> old(pos) < r.value <= bits.n && !old(InUse(r.value))
                          && (forall id: nat :: InUse(id) == (id == r.value || old(InUse(id))))
                          && (forall id: nat | old(pos) < id < r.value :: old(InUse(id)))
                          && pos == r.value % bits.n
    {
      var next := bits.FindNext(true, pos);
      if next.Some? {
        bits.Set(next.value);
        pos := (next.value + 1) % bits.n;
        return Some(next.value + 1);
      }
      forall id: nat | pos < id <= bits.n ensures old(InUse(id)) {
        assert bits.Test(id - 1) && InUse(id);
      }
      return None;
    }

    // A number not in use: the first one past pos, else the first one at all.
    // It fails only when every number is in use.
    method Generate() returns (r: Option<nat>)
      requires Valid()
      modifies `pos, bits.words
      ensures Valid()
      ensures r.None? <==> forall id: nat | 0 < id <= bits.n :: old(InUse(id))
      ensures r.None? ==> forall id: nat :: InUse(id) == old(InUse(id))
      ensures r.Some? ==> 0 < r.value <= bits.n && !old(InUse(r.value))
      ensures r.Some? ==> forall id: nat :: InUse(id) == (id == r.value || old(InUse(id)))
      ensures r.Some? ==> forall id: nat | 0 < id <= bits.n && !old(InUse(id)) && id != r.value ::
                if old(pos) < r.value then id <= old(pos) || r.value < id else r.value < id <= old(pos)
      // The next search starts behind this number.
      ensures r.Some? ==> pos == r.value % bits.n
    {
      r := GetNext();
      if r.None? && pos > 0 {
        pos := 0;
        label Again:
        r := GetNext();
        assert forall id: nat :: old@Again(InUse(id)) == old(InUse(id));
        if r.None? {
          forall id: nat | 0 < id <= bits.n ensures old(InUse(id)) {
            assert old@Again(InUse(id));
          }
        }
      }
      if r.Some? {
        assert !old(InUse(r.value));
      }
    }

    method Release(id: nat)
      requires Valid() && 0 < id <= bits.n
      modifies bits.words
      ensures Valid() && forall x: nat :: InUse(x) == (x != id && old(InUse(x)))
    {
      bits.Clear(id - 1);
    }
  }
}
