// SetupStack (junction/kernel/exec.cc): the initial stack of a new program, as
// laid out by section 3.4.1 of the System V AMD64 psABI. Memory is an array of
// octets indexed by address; words are eight octets, least significant first.
module InitialStack {
  import opened Common

  type Octet = n: nat | n < 256

  // --- Words ---

  function Pow256(k: nat): (r: nat)
    ensures r > 0
  {
    if k == 0 then 1 else 256 * Pow256(k - 1)
  }

  function Encode(v: nat, k: nat): (r: seq<Octet>)
    ensures |r| == k
  {
    if k == 0 then [] else [v % 256] + Encode(v / 256, k - 1)
  }

  function Decode(b: seq<Octet>): nat {
    if b == [] then 0 else b[0] + 256 * Decode(b[1..])
  }

  lemma {:induction false} EncodeDecode(v: nat, k: nat)
    requires v < Pow256(k)
    ensures Decode(Encode(v, k)) == v
  {
    if k > 0 {
      EncodeDecode(v / 256, k - 1);
      assert Encode(v, k)[1..] == Encode(v / 256, k - 1);
    }
  }

  lemma WordRange()
    ensures Pow256(8) == WORD
  {
    assert Pow256(2) == 0x1_0000;
    assert Pow256(4) == 0x1_0000_0000;
    assert Pow256(6) == 0x1_0000_0000_0000;
  }

  function WordAt(m: seq<Octet>, a: nat): nat
    requires a + 8 <= |m|
  {
    Decode(m[a..a + 8])
  }

  ghost predicate HoldsWords(m: seq<Octet>, a: nat, ws: seq<nat>) {
    a + 8 * |ws| <= |m| && forall i | 0 <= i < |ws| :: WordAt(m, a + 8 * i) == ws[i]
  }

  ghost predicate HoldsBytes(m: seq<Octet>, a: nat, s: seq<Octet>) {
    a + |s| <= |m| && m[a..a + |s|] == s
  }

  // Two memories agree on [a, b).
  ghost predicate Agree(m: seq<Octet>, n: seq<Octet>, a: nat, b: nat) {
    |m| == |n| && forall x | a <= x < b && x < |m| :: m[x] == n[x]
  }

  lemma WordsKept(m: seq<Octet>, n: seq<Octet>, a: nat, ws: seq<nat>)
    requires HoldsWords(m, a, ws) && Agree(m, n, a, a + 8 * |ws|)
    ensures HoldsWords(n, a, ws)
  {
    forall i | 0 <= i < |ws| ensures WordAt(n, a + 8 * i) == ws[i] {
      var w := a + 8 * i;
      assert m[w..w + 8] == n[w..w + 8];
    }
  }

  lemma WordsSnoc(m: seq<Octet>, a: nat, ws: seq<nat>, w: nat)
    requires HoldsWords(m, a, ws) && a + 8 * |ws| + 8 <= |m| && WordAt(m, a + 8 * |ws|) == w
    ensures HoldsWords(m, a, ws + [w])
  {
  }

  lemma WordsJoin(m: seq<Octet>, a: nat, ws: seq<nat>, vs: seq<nat>)
    requires HoldsWords(m, a, ws) && HoldsWords(m, a + 8 * |ws|, vs)
    ensures HoldsWords(m, a, ws + vs)
  {
    forall i | 0 <= i < |ws + vs| ensures WordAt(m, a + 8 * i) == (ws + vs)[i] {
      if i >= |ws| { assert a + 8 * i == a + 8 * |ws| + 8 * (i - |ws|); }
    }
  }

  method PutBytes(m: array<Octet>, a: nat, s: seq<Octet>)
    requires a + |s| <= m.Length
    modifies m
    ensures HoldsBytes(m[..], a, s)
    ensures Agree(old(m[..]), m[..], 0, a) && Agree(old(m[..]), m[..], a + |s|, m.Length)
  {
    var i := 0;
    while i < |s|
      invariant 0 <= i <= |s| && m[a..a + i] == s[..i]
      invariant forall x | 0 <= x < m.Length && !(a <= x < a + i) :: m[x] == old(m[x])
    {
      m[a + i] := s[i];
      i := i + 1;
    }
  }

  method PutWord(m: array<Octet>, a: nat, w: nat)
    requires a + 8 <= m.Length && w < WORD
    modifies m
    ensures WordAt(m[..], a) == w
    ensures Agree(old(m[..]), m[..], 0, a) && Agree(old(m[..]), m[..], a + 8, m.Length)
  {
    WordRange();
    EncodeDecode(w, 8);
    PutBytes(m, a, Encode(w, 8));
  }

  // --- Strings ---

  type Str = seq<Octet>

  function Flat(args: seq<Str>): Str {
    if args == [] then [] else args[0] + [0] + Flat(args[1..])
  }

  function Ptrs(args: seq<Str>, base: nat): (r: seq<nat>)
    ensures |r| == |args|
  {
    if args == [] then [] else [base] + Ptrs(args[1..], base + |args[0]| + 1)
  }

  method VectorBytes(args: seq<Str>) returns (len: nat)
    ensures len == |Flat(args)|
  {
    len := 0;
    var i := 0;
    while i < |args|
      invariant 0 <= i <= |args| && len == |Flat(args[..i])|
    {
      StringAt(args, i, 0);
      len := len + |args[i]| + 1;
      i := i + 1;
    }
    assert args[..i] == args;
  }

  lemma {:induction false} FlatSplit(args: seq<Str>, i: nat)
    requires i <= |args|
    ensures Flat(args) == Flat(args[..i]) + Flat(args[i..])
  {
    if i == 0 {
      assert args[..0] == [] && args[0..] == args;
    } else {
      var s := args[0] + [0];
      FlatSplit(args[1..], i - 1);
      assert args[..i][1..] == args[1..][..i - 1] && args[1..][i - 1..] == args[i..];
      Associate(s, Flat(args[1..][..i - 1]), Flat(args[i..]));
    }
  }

  lemma {:induction false} PtrAt(args: seq<Str>, i: nat, base: nat)
    requires i < |args|
    ensures Ptrs(args, base)[i] == base + |Flat(args[..i])|
  {
    if i > 0 {
      PtrAt(args[1..], i - 1, base + |args[0]| + 1);
      assert args[..i][1..] == args[1..][..i - 1];
    }
  }

  // Where the i-th string lies.
  lemma StringAt(args: seq<Str>, i: nat, base: nat)
    requires i < |args|
    ensures var o := |Flat(args[..i])|;
            && |Flat(args[..i + 1])| == o + |args[i]| + 1 <= |Flat(args)|
            && Flat(args)[o..o + |args[i]| + 1] == args[i] + [0]
            && Ptrs(args, base)[i] == base + o
  {
    PtrAt(args, i, base);
    FlatSplit(args, i);
    FlatSplit(args, i + 1);
    assert args[i..][1..] == args[i + 1..];
  }

  // One of the two loops: pointers from argPtr up, strings from info up.
  method PutStrings(m: array<Octet>, argPtr: nat, info: nat, args: seq<Str>) returns (nextArg: nat, nextInfo: nat)
    requires argPtr + 8 * |args| <= info && info + |Flat(args)| <= m.Length < WORD
    modifies m
    ensures nextArg == argPtr + 8 * |args| && nextInfo == info + |Flat(args)|
    ensures HoldsWords(m[..], argPtr, Ptrs(args, info)) && HoldsBytes(m[..], info, Flat(args))
    ensures Agree(old(m[..]), m[..], 0, argPtr) && Agree(old(m[..]), m[..], nextArg, info)
    ensures Agree(old(m[..]), m[..], nextInfo, m.Length)
  {
    ghost var ptrs, flat := Ptrs(args, info), Flat(args);
    nextArg, nextInfo := argPtr, info;
    var i := 0;
    while i < |args|
      invariant 0 <= i <= |args| && nextArg == argPtr + 8 * i && nextInfo == info + |Flat(args[..i])|
      invariant |Flat(args[..i])| <= |flat|
      invariant HoldsWords(m[..], argPtr, ptrs[..i]) && HoldsBytes(m[..], info, flat[..|Flat(args[..i])|])
      invariant Agree(old(m[..]), m[..], 0, argPtr) && Agree(old(m[..]), m[..], nextArg, info)
      invariant Agree(old(m[..]), m[..], nextInfo, m.Length)
    {
      PutOne(m, argPtr, info, args, i, nextArg, nextInfo);
      nextArg, nextInfo := nextArg + 8, nextInfo + |args[i]| + 1;
      StringAt(args, i, info);
      i := i + 1;
    }
    assert args[..i] == args && ptrs[..i] == ptrs && flat[..|flat|] == flat;
  }

  // The body of the loop.
  method PutOne(m: array<Octet>, argPtr: nat, info: nat, args: seq<Str>, i: nat, thisArg: nat, thisInfo: nat)
    requires argPtr + 8 * |args| <= info && info + |Flat(args)| <= m.Length < WORD
    requires i < |args| && thisArg == argPtr + 8 * i && thisInfo == info + |Flat(args[..i])|
    requires |Flat(args[..i])| <= |Flat(args)|
    requires HoldsWords(m[..], argPtr, Ptrs(args, info)[..i])
    requires HoldsBytes(m[..], info, Flat(args)[..|Flat(args[..i])|])
    modifies m
    ensures |Flat(args[..i + 1])| <= |Flat(args)|
    ensures HoldsWords(m[..], argPtr, Ptrs(args, info)[..i + 1])
    ensures HoldsBytes(m[..], info, Flat(args)[..|Flat(args[..i + 1])|])
    ensures Agree(old(m[..]), m[..], 0, argPtr) && Agree(old(m[..]), m[..], thisArg + 8, info)
    ensures Agree(old(m[..]), m[..], thisInfo + |args[i]| + 1, m.Length)
  {
    hide Flat, Ptrs, HoldsWords, HoldsBytes;
    StringAt(args, i, info);
    ghost var m0, ptrs, flat, o := m[..], Ptrs(args, info), Flat(args), |Flat(args[..i])|;
    PutPtr(m, argPtr, ptrs, i, thisInfo);
    ghost var m1 := m[..];
    BytesKept(m0, m1, info, flat[..o]);
    PutStr(m, info, flat, thisInfo - info, args[i]);
    WordsKept(m1, m[..], argPtr, ptrs[..i + 1]);
  }

  method PutPtr(m: array<Octet>, argPtr: nat, ghost ptrs: seq<nat>, i: nat, w: nat)
    requires i < |ptrs| && argPtr + 8 * |ptrs| <= m.Length && ptrs[i] == w < WORD
    requires HoldsWords(m[..], argPtr, ptrs[..i])
    modifies m
    ensures HoldsWords(m[..], argPtr, ptrs[..i + 1])
    ensures Agree(old(m[..]), m[..], 0, argPtr + 8 * i) && Agree(old(m[..]), m[..], argPtr + 8 * i + 8, m.Length)
  {
    ghost var m0 := m[..];
    PutWord(m, argPtr + 8 * i, w);
    WordsKept(m0, m[..], argPtr, ptrs[..i]);
    WordsSnoc(m[..], argPtr, ptrs[..i], w);
    assert ptrs[..i + 1] == ptrs[..i] + [w];
  }

  // The string and its terminating NUL.
  method PutStr(m: array<Octet>, info: nat, ghost flat: Str, o: nat, arg: Str)
    requires o + |arg| + 1 <= |flat| && info + |flat| <= m.Length
    requires flat[o..o + |arg| + 1] == arg + [0] && HoldsBytes(m[..], info, flat[..o])
    modifies m
    ensures HoldsBytes(m[..], info, flat[..o + |arg| + 1])
    ensures Agree(old(m[..]), m[..], 0, info + o) && Agree(old(m[..]), m[..], info + o + |arg| + 1, m.Length)
  {
    ghost var m0 := m[..];
    PutBytes(m, info + o, arg);
    ghost var m1 := m[..];
    PutBytes(m, info + o + |arg|, [0]);
    BytesSnoc(m1, m[..], info + o, arg, [0]);
    BytesSnoc(m0, m[..], info, flat[..o], arg + [0]);
    assert flat[..o + |arg| + 1] == flat[..o] + flat[o..o + |arg| + 1];
  }

  lemma BytesKept(m: seq<Octet>, n: seq<Octet>, a: nat, s: Str)
    requires HoldsBytes(m, a, s) && Agree(m, n, a, a + |s|)
    ensures HoldsBytes(n, a, s)
  {
    assert n[a..a + |s|] == m[a..a + |s|];
  }

  lemma BytesSnoc(m: seq<Octet>, n: seq<Octet>, a: nat, s: Str, t: Str)
    requires HoldsBytes(m, a, s) && Agree(m, n, a, a + |s|) && HoldsBytes(n, a + |s|, t)
    ensures HoldsBytes(n, a, s + t)
  {
    assert n[a..a + |s|] == m[a..a + |s|];
    assert n[a..a + |s + t|] == n[a..a + |s|] + n[a + |s|..a + |s| + |t|];
  }

  // --- The whole stack ---

  // What the loader and the processor supply to the auxiliary vector. interp:
  // where the program's interpreter was mapped, if it has one.
  datatype Image = Image(
    hwcap: nat, phdr: nat, phent: nat, phnum: nat, entry: nat, mapBase: nat, interp: Option<nat>)
  {
    ghost predicate Fits() {
      && hwcap < WORD && phdr < WORD && phent < WORD && phnum < WORD && entry < WORD && mapBase < WORD
      && (interp.Some? ==> interp.value < WORD)
    }

    function Base(): nat {
      if interp.Some? then interp.value else mapBase
    }
  }

  type Aux = (nat, nat)

  const AT_NULL := 0
  const AT_RANDOM := 25
  const AT_EXECFN := 31

  // The entries before AT_NULL.
  function AuxVec(filename: nat, e: Image, random: nat): (r: seq<Aux>)
    ensures |r| == 19 && forall i | 0 <= i < |r| :: r[i].0 != AT_NULL
  {
    [(16, e.hwcap), (6, PAGE_SIZE), (17, 1000000), (3, e.phdr), (4, e.phent), (5, e.phnum), (8, 0), (9, e.entry),
     (7, e.Base()), (11, 1), (12, 1), (13, 1), (14, 1), (23, 0), (AT_RANDOM, random), (AT_EXECFN, filename),
     (33, 0x201000), (28, 32), (27, 28)]
  }

  function AuxWords(v: seq<Aux>): (r: seq<nat>)
    ensures |r| == 2 * |v|
  {
    if v == [] then [] else [v[0].0, v[0].1] + AuxWords(v[1..])
  }

  function AlignUp32(n: nat): (r: nat)
    ensures n <= r < n + 32 && r % 32 == 0
  {
    (n + 31) / 32 * 32
  }

  function StackLen(argv: seq<Str>, envp: seq<Str>): nat {
    AlignUp32(|Flat(argv)| + |Flat(envp)| + 16 + 16 * 20 + (|argv| + |envp| + 3) * 8)
  }

  function StringBase(top: nat, argv: seq<Str>, envp: seq<Str>): nat
    requires StackLen(argv, envp) <= top
  {
    top - |Flat(argv)| - |Flat(envp)|
  }

  function AuxPart(top: nat, argv: seq<Str>, envp: seq<Str>, e: Image): (r: seq<nat>)
    requires StackLen(argv, envp) <= top
    ensures |r| == 40
  {
    var base := StringBase(top, argv, envp);
    AuxWords(AuxVec(base, e, base - 16) + [(AT_NULL, 0)])
  }

  function StackWords(top: nat, argv: seq<Str>, envp: seq<Str>, e: Image): seq<nat>
    requires StackLen(argv, envp) <= top
  {
    VectorWords(StringBase(top, argv, envp), argv, envp) + AuxPart(top, argv, envp, e)
  }

  function VectorWords(base: nat, argv: seq<Str>, envp: seq<Str>): (r: seq<nat>)
    ensures |r| == |argv| + |envp| + 3
  {
    [|argv|] + (Ptrs(argv, base) + [0]) + (Ptrs(envp, base + |Flat(argv)|) + [0])
  }

  ghost predicate Laid(m: seq<Octet>, sp: nat, top: nat, argv: seq<Str>, envp: seq<Str>, e: Image)
    requires StackLen(argv, envp) <= top
  {
    var base := StringBase(top, argv, envp);
    && HoldsWords(m, sp, StackWords(top, argv, envp, e))
    && HoldsBytes(m, base, Flat(argv)) && HoldsBytes(m, base + |Flat(argv)|, Flat(envp))
    // words, random bytes and strings follow each other without overlap
    && sp + 8 * |StackWords(top, argv, envp, e)| <= base - 16
  }

  method PutWords(m: array<Octet>, a: nat, ws: seq<nat>)
    requires a + 8 * |ws| <= m.Length && forall i | 0 <= i < |ws| :: ws[i] < WORD
    modifies m
    ensures HoldsWords(m[..], a, ws)
    ensures Agree(old(m[..]), m[..], 0, a) && Agree(old(m[..]), m[..], a + 8 * |ws|, m.Length)
  {
    hide HoldsWords;
    NoWords(m[..], a);
    var i := 0;
    assert ws[..0] == [];
    while i < |ws|
      invariant 0 <= i <= |ws| && HoldsWords(m[..], a, ws[..i])
      invariant Agree(old(m[..]), m[..], 0, a) && Agree(old(m[..]), m[..], a + 8 * i, m.Length)
    {
      PutPtr(m, a, ws, i, ws[i]);
      i := i + 1;
    }
    assert ws[..i] == ws;
  }

  lemma NoWords(m: seq<Octet>, a: nat)
    requires a <= |m|
    ensures HoldsWords(m, a, [])
  {
  }

  lemma {:induction false} AuxFits(v: seq<Aux>)
    requires forall i | 0 <= i < |v| :: v[i].0 < WORD && v[i].1 < WORD
    ensures forall i | 0 <= i < |AuxWords(v)| :: AuxWords(v)[i] < WORD
  {
    if v != [] { AuxFits(v[1..]); }
  }

  // random: the bytes ReadRandom delivers, or None if it fails.
  method SetupStack(m: array<Octet>, top: nat, argv: seq<Str>, envp: seq<Str>, e: Image, random: Option<Str>)
    returns (sp: nat)
    requires top <= m.Length < WORD && e.Fits() && StackLen(argv, envp) <= top
    requires random.Some? ==> |random.value| == 16
    modifies m
    ensures sp == top - StackLen(argv, envp) && Laid(m[..], sp, top, argv, envp, e)
    ensures sp % 16 == 0 <==> top % 16 == 0
    // What the program will read there.
    ensures var r := ReadStack(m[..], sp);
            && (r.argv == argv && r.envp == envp <==> NulFree(argv) && NulFree(envp))
            && AuxOk(r.aux, e, StringBase(top, argv, envp), StringBase(top, argv, envp) - 16)
    ensures random.Some? ==> HoldsBytes(m[..], StringBase(top, argv, envp) - 16, random.value)
    ensures Agree(old(m[..]), m[..], 0, sp) && Agree(old(m[..]), m[..], top, m.Length)
  {
    hide HoldsBytes, Flat, AlignUp32, Laid, Ptrs, ReadStack, NulFree, AuxOk, AuxVec;
    var len1 := VectorBytes(argv);
    var len2 := VectorBytes(envp);
    var info := top - len1 - len2;
    if random.Some? {
      PutBytes(m, info - 16, random.value);
    }
    ghost var m0 := m[..];
    sp := top - AlignUp32(len1 + len2 + 16 + 16 * 20 + (|argv| + |envp| + 3) * 8);
    PutTables(m, sp, top, info, argv, envp, e);
    if random.Some? { BytesKept(m0, m[..], info - 16, random.value); }
    Alignment(top, argv, envp);
    RoundTrip(m[..], sp, top, argv, envp, e);
    AuxMeans(m[..], sp, top, argv, envp, e);
  }

  // Everything but the random bytes.
  method PutTables(m: array<Octet>, sp: nat, top: nat, info: nat, argv: seq<Str>, envp: seq<Str>, e: Image)
    requires top <= m.Length < WORD && e.Fits() && StackLen(argv, envp) <= top
    requires sp == top - StackLen(argv, envp) && info == StringBase(top, argv, envp)
    modifies m
    ensures Laid(m[..], sp, top, argv, envp, e)
    ensures Agree(old(m[..]), m[..], 0, sp) && Agree(old(m[..]), m[..], info - 16, info)
    ensures Agree(old(m[..]), m[..], top, m.Length)
  {
    hide HoldsWords, HoldsBytes, Flat, Ptrs, AuxPart, AuxVec, AuxWords, VectorWords, AlignUp32;
    AuxPartFits(top, argv, envp, e);
    var argPtr := PutVectors(m, sp, info, argv, envp);
    ghost var m3 := m[..];
    PutWords(m, argPtr, AuxPart(top, argv, envp, e));
    WordsKept(m3, m[..], sp, VectorWords(info, argv, envp));
    BytesKept(m3, m[..], info, Flat(argv));
    BytesKept(m3, m[..], info + |Flat(argv)|, Flat(envp));
    WordsJoin(m[..], sp, VectorWords(info, argv, envp), AuxPart(top, argv, envp, e));
  }

  // The argument count and both pointer arrays, with their strings.
  method PutVectors(m: array<Octet>, sp: nat, base: nat, argv: seq<Str>, envp: seq<Str>) returns (argPtr: nat)
    requires sp + 8 * (|argv| + |envp| + 3) <= base && base + |Flat(argv)| + |Flat(envp)| <= m.Length < WORD
    modifies m
    ensures argPtr == sp + 8 * (|argv| + |envp| + 3) && HoldsWords(m[..], sp, VectorWords(base, argv, envp))
    ensures HoldsBytes(m[..], base, Flat(argv)) && HoldsBytes(m[..], base + |Flat(argv)|, Flat(envp))
    ensures Agree(old(m[..]), m[..], 0, sp) && Agree(old(m[..]), m[..], argPtr, base)
    ensures Agree(old(m[..]), m[..], base + |Flat(argv)| + |Flat(envp)|, m.Length)
  {
    hide HoldsWords, HoldsBytes, Flat, Ptrs;
    PutWords(m, sp, [|argv|]);
    ghost var m1 := m[..];
    var info;
    argPtr, info := PutArgs(m, sp + 8, base, argv);
    ghost var m2 := m[..];
    WordsKept(m1, m2, sp, [|argv|]);
    WordsJoin(m2, sp, [|argv|], Ptrs(argv, base) + [0]);
    ghost var words := [|argv|] + (Ptrs(argv, base) + [0]);
    argPtr, info := PutArgs(m, argPtr, info, envp);
    WordsKept(m2, m[..], sp, words);
    BytesKept(m2, m[..], base, Flat(argv));
    WordsJoin(m[..], sp, words, Ptrs(envp, base + |Flat(argv)|) + [0]);
  }

  // One loop and the null pointer after it.
  method PutArgs(m: array<Octet>, argPtr: nat, info: nat, args: seq<Str>) returns (nextArg: nat, nextInfo: nat)
    requires argPtr + 8 * |args| + 8 <= info && info + |Flat(args)| <= m.Length < WORD
    modifies m
    ensures nextArg == argPtr + 8 * |args| + 8 && nextInfo == info + |Flat(args)|
    ensures HoldsWords(m[..], argPtr, Ptrs(args, info) + [0]) && HoldsBytes(m[..], info, Flat(args))
    ensures Agree(old(m[..]), m[..], 0, argPtr) && Agree(old(m[..]), m[..], nextArg, info)
    ensures Agree(old(m[..]), m[..], nextInfo, m.Length)
  {
    hide HoldsWords, HoldsBytes, Flat, Ptrs;
    nextArg, nextInfo := PutStrings(m, argPtr, info, args);
    ghost var m1 := m[..];
    PutWord(m, nextArg, 0);
    WordsKept(m1, m[..], argPtr, Ptrs(args, info));
    WordsSnoc(m[..], argPtr, Ptrs(args, info), 0);
    BytesKept(m1, m[..], info, Flat(args));
    nextArg := nextArg + 8;
  }

  lemma AuxPartFits(top: nat, argv: seq<Str>, envp: seq<Str>, e: Image)
    requires StackLen(argv, envp) <= top < WORD && e.Fits()
    ensures forall i | 0 <= i < 40 :: AuxPart(top, argv, envp, e)[i] < WORD
    ensures |argv| < WORD
  {
    var base := StringBase(top, argv, envp);
    AuxFits(AuxVec(base, e, base - 16) + [(AT_NULL, 0)]);
  }

  // --- Reading the stack back ---

  // As a program's startup code does; a read outside the memory gives zero.
  function Word(m: seq<Octet>, a: nat): nat {
    if a + 8 <= |m| then WordAt(m, a) else 0
  }

  function CString(m: seq<Octet>, p: nat): Str
    decreases |m| - p
  {
    if p < |m| && m[p] != 0 then [m[p]] + CString(m, p + 1) else []
  }

  function Words(m: seq<Octet>, a: nat, n: nat): (r: seq<nat>)
    ensures |r| == n
  {
    seq(n, i requires 0 <= i => Word(m, a + 8 * i))
  }

  function WordsToNull(m: seq<Octet>, a: nat): seq<nat>
    decreases |m| - a
  {
    if Word(m, a) == 0 then [] else [Word(m, a)] + WordsToNull(m, a + 8)
  }

  function AuxToNull(m: seq<Octet>, a: nat): seq<Aux>
    decreases |m| - a
  {
    if Word(m, a) == AT_NULL then [] else [(Word(m, a), Word(m, a + 8))] + AuxToNull(m, a + 16)
  }

  function Strings(m: seq<Octet>, ps: seq<nat>): (r: seq<Str>)
    ensures |r| == |ps|
  {
    seq(|ps|, i requires 0 <= i < |ps| => CString(m, ps[i]))
  }

  datatype Startup = Startup(argv: seq<Str>, envp: seq<Str>, aux: seq<Aux>)

  function ReadStack(m: seq<Octet>, sp: nat): Startup {
    var argc := Word(m, sp);
    var env := sp + 8 + 8 * argc + 8;
    var envPtrs := WordsToNull(m, env);
    Startup(Strings(m, Words(m, sp + 8, argc)), Strings(m, envPtrs), AuxToNull(m, env + 8 * |envPtrs| + 8))
  }

  // A C string ends at its first NUL.
  function UpToNul(s: Str): Str {
    if s == [] || s[0] == 0 then [] else [s[0]] + UpToNul(s[1..])
  }

  lemma {:induction false} UpToNulIs(s: Str)
    ensures UpToNul(s) == s <==> 0 !in s
  {
    if s != [] {
      UpToNulIs(s[1..]);
      assert s == [s[0]] + s[1..];
    }
  }

  lemma {:induction false} CStringIs(m: seq<Octet>, p: nat, s: Str)
    requires HoldsBytes(m, p, s + [0])
    ensures CString(m, p) == UpToNul(s)
    decreases |s|
  {
    var t := s + [0];
    assert m[p] == m[p..p + |t|][0];
    if s != [] {
      assert m[p + 1..p + 1 + |s|] == m[p..p + |t|][1..] == s[1..] + [0];
      CStringIs(m, p + 1, s[1..]);
    }
  }

  lemma StringsRead(m: seq<Octet>, args: seq<Str>, base: nat)
    requires HoldsBytes(m, base, Flat(args))
    ensures Strings(m, Ptrs(args, base)) == seq(|args|, i requires 0 <= i < |args| => UpToNul(args[i]))
  {
    forall i | 0 <= i < |args| ensures CString(m, Ptrs(args, base)[i]) == UpToNul(args[i]) {
      StringRead(m, args, base, i);
    }
  }

  lemma StringRead(m: seq<Octet>, args: seq<Str>, base: nat, i: nat)
    requires HoldsBytes(m, base, Flat(args)) && i < |args|
    ensures CString(m, Ptrs(args, base)[i]) == UpToNul(args[i])
  {
    hide Flat, Ptrs, HoldsBytes;
    StringAt(args, i, base);
    var o := |Flat(args[..i])|;
    BytesPart(m, base, Flat(args), o, |args[i]| + 1);
    CStringIs(m, base + o, args[i]);
  }

  lemma BytesPart(m: seq<Octet>, a: nat, s: Str, o: nat, n: nat)
    requires HoldsBytes(m, a, s) && o + n <= |s|
    ensures HoldsBytes(m, a + o, s[o..o + n])
  {
    var part, want := m[a + o..a + o + n], s[o..o + n];
    forall i | 0 <= i < n ensures part[i] == want[i] {
      assert m[a..a + |s|][o + i] == s[o + i];
    }
    assert part == want;
  }

  lemma {:induction false} NullRead(m: seq<Octet>, a: nat, ps: seq<nat>)
    requires HoldsWords(m, a, ps + [0]) && forall i | 0 <= i < |ps| :: ps[i] != 0
    ensures WordsToNull(m, a) == ps
    decreases |ps|
  {
    assert WordAt(m, a + 8 * 0) == (ps + [0])[0];
    if ps != [] {
      WordsDrop(m, a, ps + [0], 1);
      assert (ps + [0])[1..] == ps[1..] + [0];
      NullRead(m, a + 8, ps[1..]);
    }
  }

  lemma WordsDrop(m: seq<Octet>, a: nat, ws: seq<nat>, k: nat)
    requires HoldsWords(m, a, ws) && k <= |ws|
    ensures HoldsWords(m, a + 8 * k, ws[k..]) && HoldsWords(m, a, ws[..k])
  {
    forall i | 0 <= i < |ws| - k ensures WordAt(m, a + 8 * k + 8 * i) == ws[k..][i] {
      assert a + 8 * k + 8 * i == a + 8 * (k + i);
    }
  }

  lemma {:induction false} AuxRead(m: seq<Octet>, a: nat, v: seq<Aux>)
    requires HoldsWords(m, a, AuxWords(v + [(AT_NULL, 0)])) && forall i | 0 <= i < |v| :: v[i].0 != AT_NULL
    ensures AuxToNull(m, a) == v
    decreases |v|
  {
    var ws := AuxWords(v + [(AT_NULL, 0)]);
    assert WordAt(m, a + 8 * 0) == ws[0] && WordAt(m, a + 8 * 1) == ws[1];
    if v != [] {
      WordsDrop(m, a, ws, 2);
      assert (v + [(AT_NULL, 0)])[1..] == v[1..] + [(AT_NULL, 0)];
      assert ws[2..] == AuxWords(v[1..] + [(AT_NULL, 0)]);
      AuxRead(m, a + 16, v[1..]);
    }
  }

  ghost predicate NulFree(args: seq<Str>) {
    forall i | 0 <= i < |args| :: 0 !in args[i]
  }

  lemma Truncated(args: seq<Str>)
    ensures seq(|args|, i requires 0 <= i < |args| => UpToNul(args[i])) == args <==> NulFree(args)
  {
    var t := seq(|args|, i requires 0 <= i < |args| => UpToNul(args[i]));
    forall i | 0 <= i < |args| ensures t[i] == args[i] <==> 0 !in args[i] {
      UpToNulIs(args[i]);
    }
  }

  lemma {:induction false} PtrsNonNull(args: seq<Str>, base: nat)
    requires base > 0
    ensures forall i | 0 <= i < |args| :: Ptrs(args, base)[i] != 0
  {
    if args != [] { PtrsNonNull(args[1..], base + |args[0]| + 1); }
  }

  // The pieces of the word area, found where a reader looks for them.
  lemma Pieces(m: seq<Octet>, sp: nat, n: nat, p: seq<nat>, q: seq<nat>, aux: seq<nat>)
    requires HoldsWords(m, sp, [n] + (p + [0]) + (q + [0]) + aux)
    ensures Word(m, sp) == n && HoldsWords(m, sp + 8, p)
    ensures HoldsWords(m, sp + 8 + 8 * |p| + 8, q + [0])
    ensures HoldsWords(m, sp + 8 * (|p| + |q| + 3), aux)
  {
    hide HoldsWords;
    var a, b := p + [0], q + [0];
    WordsUnjoin(m, sp, [n] + a + b, aux);
    WordsUnjoin(m, sp, [n] + a, b);
    assert sp + 8 * |[n] + a| == sp + 8 + 8 * |p| + 8;
    WordsUnjoin(m, sp, [n], a);
    WordsUnjoin(m, sp + 8, p, [0]);
    FirstWord(m, sp, [n]);
  }

  lemma FirstWord(m: seq<Octet>, a: nat, ws: seq<nat>)
    requires HoldsWords(m, a, ws) && ws != []
    ensures Word(m, a) == ws[0]
  {
    assert WordAt(m, a + 8 * 0) == ws[0];
  }

  lemma WordsUnjoin(m: seq<Octet>, a: nat, ws: seq<nat>, vs: seq<nat>)
    requires HoldsWords(m, a, ws + vs)
    ensures HoldsWords(m, a, ws) && HoldsWords(m, a + 8 * |ws|, vs)
  {
    WordsDrop(m, a, ws + vs, |ws|);
    assert (ws + vs)[..|ws|] == ws && (ws + vs)[|ws|..] == vs;
  }

  lemma WordsRead(m: seq<Octet>, a: nat, ws: seq<nat>)
    requires HoldsWords(m, a, ws)
    ensures Words(m, a, |ws|) == ws
  {
  }

  // Reading the stack gives back exactly the lists it was built from, if and
  // only if no string has a NUL inside; the auxiliary vector always comes back.
  lemma RoundTrip(m: seq<Octet>, sp: nat, top: nat, argv: seq<Str>, envp: seq<Str>, e: Image)
    requires StackLen(argv, envp) <= top && Laid(m, sp, top, argv, envp, e)
    ensures var r, base := ReadStack(m, sp), StringBase(top, argv, envp);
            && (r.argv == argv && r.envp == envp <==> NulFree(argv) && NulFree(envp))
            && |r.argv| == |argv| && |r.envp| == |envp|
            && r.aux == AuxVec(base, e, base - 16)
  {
    hide HoldsWords, HoldsBytes, Flat, Ptrs, UpToNul, WordsToNull, AuxToNull, NulFree, AlignUp32;
    var base := StringBase(top, argv, envp);
    var envBase := base + |Flat(argv)|;
    Pieces(m, sp, |argv|, Ptrs(argv, base), Ptrs(envp, envBase), AuxPart(top, argv, envp, e));
    WordsRead(m, sp + 8, Ptrs(argv, base));
    PtrsNonNull(envp, envBase);
    NullRead(m, sp + 8 + 8 * |argv| + 8, Ptrs(envp, envBase));
    AuxRead(m, sp + 8 * (|argv| + |envp| + 3), AuxVec(base, e, base - 16));
    StringsRead(m, argv, base);
    StringsRead(m, envp, envBase);
    Truncated(argv);
    Truncated(envp);
  }

  // The stack pointer is aligned as the psABI asks whenever the top was.
  lemma Alignment(top: nat, argv: seq<Str>, envp: seq<Str>)
    requires StackLen(argv, envp) <= top
    ensures (top - StackLen(argv, envp)) % 16 == 0 <==> top % 16 == 0
  {
    AlignedBelow(top, StackLen(argv, envp));
  }

  lemma AlignedBelow(top: nat, n: nat)
    requires n <= top && n % 32 == 0
    ensures (top - n) % 16 == 0 <==> top % 16 == 0
  {
  }

  // Each key of the auxiliary vector occurs once and carries what the psABI
  // and the kernel's vector say: the program headers, the entry point, the base
  // of the interpreter (or of a program without one), the page size, ...
  ghost predicate AuxOk(aux: seq<Aux>, e: Image, filename: nat, random: nat) {
    && |aux| == 19 && (forall i, j | 0 <= i < j < |aux| :: aux[i].0 != aux[j].0)
    && (3, e.phdr) in aux && (4, e.phent) in aux && (5, e.phnum) in aux && (9, e.entry) in aux
    && (7, if e.interp.Some? then e.interp.value else e.mapBase) in aux
    && (6, 4096) in aux && (16, e.hwcap) in aux && (17, 1000000) in aux && (8, 0) in aux
    && (11, 1) in aux && (12, 1) in aux && (13, 1) in aux && (14, 1) in aux && (23, 0) in aux
    && (25, random) in aux && (31, filename) in aux
    && (33, 0x201000) in aux && (28, 32) in aux && (27, 28) in aux
  }

  lemma AuxMeans(m: seq<Octet>, sp: nat, top: nat, argv: seq<Str>, envp: seq<Str>, e: Image)
    requires StackLen(argv, envp) <= top && Laid(m, sp, top, argv, envp, e)
    ensures AuxOk(ReadStack(m, sp).aux, e, StringBase(top, argv, envp), StringBase(top, argv, envp) - 16)
  {
    hide ReadStack, Laid, AuxOk, AuxVec;
    RoundTrip(m, sp, top, argv, envp, e);
    var base := StringBase(top, argv, envp);
    AuxVecOk(base, e, base - 16);
  }

  lemma AuxVecOk(filename: nat, e: Image, random: nat)
    ensures AuxOk(AuxVec(filename, e, random), e, filename, random)
  {
    var aux := AuxVec(filename, e, random);
    AuxKeys(filename, e, random);
    assert aux[3] == (3, e.phdr) && aux[4] == (4, e.phent) && aux[5] == (5, e.phnum) && aux[7] == (9, e.entry);
    assert aux[8].0 == 7 && aux[1] == (6, 4096) && aux[0] == (16, e.hwcap) && aux[2] == (17, 1000000);
    assert aux[6] == (8, 0) && aux[9] == (11, 1) && aux[10] == (12, 1) && aux[11] == (13, 1) && aux[12] == (14, 1);
    assert aux[13] == (23, 0) && aux[14] == (25, random) && aux[15] == (31, filename);
    assert aux[16] == (33, 0x201000) && aux[17] == (28, 32) && aux[18] == (27, 28);
  }

  // No key is repeated, because each is at its own index.
  lemma AuxKeys(filename: nat, e: Image, random: nat)
    ensures var aux := AuxVec(filename, e, random);
            forall i, j | 0 <= i < j < |aux| :: aux[i].0 != aux[j].0
  {
    var aux := AuxVec(filename, e, random);
    var index := map[16 := 0, 6 := 1, 17 := 2, 3 := 3, 4 := 4, 5 := 5, 8 := 6, 9 := 7, 7 := 8, 11 := 9, 12 := 10,
                     13 := 11, 14 := 12, 23 := 13, 25 := 14, 31 := 15, 33 := 16, 28 := 17, 27 := 18];
    forall i | 0 <= i < |aux| ensures aux[i].0 in index && index[aux[i].0] == i { }
  }

  // AT_EXECFN names the first string and AT_RANDOM the sixteen random bytes.
  lemma AuxPointers(m: seq<Octet>, sp: nat, top: nat, argv: seq<Str>, envp: seq<Str>, e: Image)
    requires StackLen(argv, envp) <= top && Laid(m, sp, top, argv, envp, e)
    ensures var aux := ReadStack(m, sp).aux;
            && |aux| == 19 && aux[15].0 == AT_EXECFN && aux[14] == (AT_RANDOM, StringBase(top, argv, envp) - 16)
            && (argv != [] ==> CString(m, aux[15].1) == UpToNul(argv[0]))
  {
    RoundTrip(m, sp, top, argv, envp, e);
    if argv != [] { StringRead(m, argv, StringBase(top, argv, envp), 0); }
  }
}
