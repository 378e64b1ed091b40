// Small vocabulary shared by the models.
module Common {

  datatype Option<+T> = None | Some(value: T)

  datatype Result<+T, +E> = Ok(value: T) | Err(error: E)

  // The error numbers the modelled operations return.
  datatype Errno = EAGAIN | EBADF | EINTR | EINVAL | ELOOP | ENODATA | ENOENT | ENOMEM | ENOSPC
                 | ENOTDIR | EPERM | EPIPE | ESTALE | ETIMEDOUT

  const PAGE_SIZE: nat := 4096
  const WORD := 0x1_0000_0000_0000_0000   // one more than the largest uintptr_t

  // uintptr_t subtraction.
  function Sub64(a: nat, b: nat): nat
    requires a < WORD && b < WORD
  {
    if b <= a then a - b else WORD + a - b
  }

  function PageAlign(x: nat): nat { (x + 4095) / 4096 * 4096 }

  function PageAlignDown(x: nat): nat { x / 4096 * 4096 }

  predicate IsPageAligned(x: nat) { x % 4096 == 0 }

  lemma PageAlignFacts(x: nat, y: nat)
    ensures IsPageAligned(PageAlign(x)) && x <= PageAlign(x) < x + PAGE_SIZE
    ensures x <= y ==> PageAlign(x) <= PageAlign(y)
    ensures IsPageAligned(y) && x <= y ==> PageAlign(x) <= y
  {
  }

  lemma AlignedRange(addr: nat, len: nat)
    requires IsPageAligned(addr)
    ensures addr + PageAlign(len) == PageAlign(addr + len) && IsPageAligned(addr + PageAlign(len))
    ensures len > 0 ==> PageAlign(len) > 0
  {
  }

  // A truth as a number.
  function One(b: bool): nat { if b then 1 else 0 }

  ghost predicate Distinct<T>(s: seq<T>) {
    forall i, j | 0 <= i < j < |s| :: s[i] != s[j]
  }

  lemma Associate<T>(a: seq<T>, b: seq<T>, c: seq<T>)
    ensures a + (b + c) == (a + b) + c
  {
  }

  function Min(a: int, b: int): int { if a < b then a else b }

  function Max(a: int, b: int): int { if a < b then b else a }

  // Every non-empty finite set of naturals has a least and a greatest element.
  lemma LeastExists(s: set<nat>)
    requires s != {}
    ensures exists x :: x in s && forall y | y in s :: x <= y
  {
    var z :| z in s;
    var below := set y | y in s && y < z;
    if below == {} {
      forall y | y in s ensures z <= y { assert y !in below; }
    } else {
      assert z !in below;
      LeastExists(below);
      var x :| x in below && forall y | y in below :: x <= y;
      forall y | y in s ensures x <= y { assert y < z ==> y in below; }
    }
  }

  lemma GreatestExists(s: set<nat>)
    requires s != {}
    ensures exists x :: x in s && forall y | y in s :: y <= x
  {
    var z :| z in s;
    var above := set y | y in s && y > z;
    if above == {} {
      forall y | y in s ensures y <= z { assert y !in above; }
    } else {
      assert z !in above;
      GreatestExists(above);
      var x :| x in above && forall y | y in above :: y <= x;
      forall y | y in s ensures y <= x { assert y > z ==> y in above; }
    }
  }

  function Least(s: set<nat>): (r: nat)
    requires s != {}
    ensures r in s && forall y | y in s :: r <= y
  {
    LeastExists(s);
    var x :| x in s && forall y | y in s :: x <= y;
    x
  }

  function Greatest(s: set<nat>): (r: nat)
    requires s != {}
    ensures r in s && forall y | y in s :: y <= r
  {
    GreatestExists(s);
    var x :| x in s && forall y | y in s :: y <= x;
    x
  }
}
