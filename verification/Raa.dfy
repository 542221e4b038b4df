// sdk/as/raa.c: the radix array, an array of numbers that is allocated as it is written.
module RadixArray {
  import opened Base
  import opened Powers

  // RAA_BLKSHIFT and RAA_LAYERSHIFT are equal.
  const LAYERSHIFT := 15
  const SIZE := 0x8000

  // The positions below a node with that many layers under it.
  function Span(layers: nat): (n: nat)
    ensures n > 0
  {
    if layers == 0 then SIZE else SIZE * Span(layers - 1)
  }

  lemma {:induction false} SpanIsShift(layers: nat)
    ensures Pow2(LAYERSHIFT * layers + LAYERSHIFT) == Span(layers)
    ensures layers > 0 ==> Pow2(LAYERSHIFT * layers) == Span(layers - 1)
  {
    assert Pow2(15) == SIZE by { assert Pow2(15) == 8 * Pow2(12) == 0x40 * Pow2(9) == 0x200 * Pow2(6) == 0x1000 * Pow2(3); }
    if layers > 0 {
      SpanIsShift(layers - 1);
      Pow2Add(LAYERSHIFT, LAYERSHIFT * layers);
    }
  }

  // The child that holds position q, and the position inside it.
  function Kid(q: nat, layers: nat): nat
    requires layers > 0
  {
    q / Span(layers - 1)
  }

  function Inside(q: nat, layers: nat): nat
    requires layers > 0
  {
    q % Span(layers - 1)
  }

  lemma Place(q: nat, p: nat, layers: nat)
    requires layers > 0
    ensures q < Span(layers) ==> Kid(q, layers) < SIZE
    ensures Inside(q, layers) < Span(layers - 1)
    ensures q == p <==> Kid(q, layers) == Kid(p, layers) && Inside(q, layers) == Inside(p, layers)
    ensures if q < Span(layers - 1) then Kid(q, layers) == 0 && Inside(q, layers) == q else Kid(q, layers) > 0
    ensures Span(layers - 1) <= Span(layers)
  {
    var n := Span(layers - 1);
    if q < SIZE * n && q / n >= SIZE { MulMonotone(SIZE, q / n, n); }
    if q < n { DivModUnique(q, n, 0, q); }
    MulMonotone(1, SIZE, n);
  }

  // struct RAA: a leaf with numbers or a branch with nodes below. vals are the numbers
  // at all its positions, zero where nothing was written.
  class Raa {
    const layers: nat
    const shift: nat
    const leaf: array<int>
    const branch: array<Raa?>
    ghost var Repr: set<object>
    ghost var vals: seq<int>

    ghost predicate Valid()
      reads this, Repr
      decreases layers
    {
      this in Repr && leaf in Repr && branch in Repr && shift == LAYERSHIFT * layers && |vals| == Span(layers) &&
      if layers == 0 then leaf.Length == SIZE && vals == leaf[..]
      else
        branch.Length == SIZE && (forall i: nat :: i < SIZE && branch[i] != null ==> branch[i] in Repr && branch[i].Repr <= Repr && GoodKid(branch[i])) &&
        (forall i: nat, j: nat :: i < j < SIZE && branch[i] != null && branch[j] != null ==> branch[i].Repr !! branch[j].Repr) &&
        KidsTied(branch[..], vals, layers)
    }

    ghost predicate GoodKid(kid: Raa)
      requires layers > 0
      reads this, Repr, kid, kid.Repr
      decreases layers, 0
    {
      kid in Repr && kid.Repr <= Repr && this !in kid.Repr && leaf !in kid.Repr && branch !in kid.Repr &&
      kid.layers == layers - 1 && kid.Valid()
    }

    // real_raa_init.
    constructor (layers: nat)
      ensures Valid() && fresh(Repr) && this.layers == layers && vals == Zeros(Span(layers))
      ensures layers > 0 ==> forall i: nat :: i < SIZE ==> branch[i] == null
    {
      this.layers, shift, vals := layers, LAYERSHIFT * layers, Zeros(Span(layers));
      var l := new int[if layers == 0 then SIZE else 0](i => 0);
      var b := new Raa?[if layers == 0 then 0 else SIZE](i => null);
      leaf, branch := l, b;
      Repr := {this, l, b};
      new;
      if layers == 0 {
        assert leaf[..] == Zeros(SIZE);
      } else {
        forall q: nat | q < Span(layers) ensures Kid(q, layers) < SIZE {
          Place(q, 0, layers);
        }
      }
    }
  }

  // The numbers of a branch are those of its children.
  ghost predicate KidsTied(kids: seq<Raa?>, vals: seq<int>, layers: nat)
    requires layers > 0 && |kids| == SIZE && |vals| == Span(layers)
    reads set k | k in kids && k != null :: k
  {
    forall q: nat :: q < |vals| ==>
      Kid(q, layers) < SIZE && kids[Kid(q, layers)] in kids && vals[q] == KidValue(kids[Kid(q, layers)], Inside(q, layers))
  }

  // The number at place p of a child, zero where there is none.
  ghost function KidValue(kid: Raa?, p: nat): int
    reads kid
  {
    if kid != null && p < |kid.vals| then kid.vals[p] else 0
  }

  // The number at any position of the array: zero beyond its end.
  ghost function At(r: Raa, p: nat): int
    reads r
  {
    if p < |r.vals| then r.vals[p] else 0
  }

  // raa_read. A negative position is a large unsigned one, beyond a tree of at most one layer
  // above the leaves; in a deeper one the source's capacity no longer fits 32 bits.
  method Read(root: Raa, posn: int) returns (value: int)
    requires root.Valid() && -0x8000_0000 <= posn && (root.layers > 1 ==> posn >= 0)
    ensures value == if posn < 0 then 0 else At(root, posn)
  {
    var p: nat := if posn < 0 then posn + 0x1_0000_0000 else posn;
    SpanIsShift(root.layers);
    assert root.layers <= 1 ==> Span(root.layers) <= SIZE * SIZE;
    if p >= Pow2(root.shift + LAYERSHIFT) { return 0; }
    var r: Raa := root;
    hide Pow2;
    while r.layers > 0
      invariant r.Valid() && p < Span(r.layers) && At(root, posn) == At(r, p)
      decreases r.layers
    {
      SpanIsShift(r.layers);
      Place(p, 0, r.layers);
      assert p / Pow2(r.shift) == Kid(p, r.layers) && p % Pow2(r.shift) == Inside(p, r.layers);
      hide Kid, Inside, Span;
      var l := p / Pow2(r.shift);
      var next := r.branch[l];
      if next == null { return 0; }
      assert r.GoodKid(next);
      p := p % Pow2(r.shift);
      r := next;
    }
    value := r.leaf[p];
  }

  // A new root above r.
  method AddLayer(r: Raa) returns (s: Raa)
    requires r.Valid()
    ensures s.Valid() && fresh(s.Repr - r.Repr) && s.layers == r.layers + 1
    ensures forall p: nat :: At(s, p) == At(r, p)
  {
    hide Kid, Inside;
    s := new Raa(r.layers + 1);
    s.branch[0] := r;
    s.Repr := s.Repr + r.Repr;
    Place(0, 0, s.layers);
    s.vals := r.vals + Zeros(Span(s.layers) - Span(r.layers));
    assert s.GoodKid(r);
    forall q: nat | q < Span(s.layers)
      ensures Kid(q, s.layers) < SIZE && s.vals[q] == KidValue(s.branch[..][Kid(q, s.layers)], Inside(q, s.layers))
    {
      Place(q, 0, s.layers);
    }
  }

  // The node below r at l, made where it is missing.
  method Child(r: Raa, l: nat) returns (child: Raa)
    requires r.Valid() && r.layers > 0 && l < SIZE
    modifies r.branch, r`Repr
    ensures r.Valid() && fresh(r.Repr - old(r.Repr)) && child == r.branch[l]
  {
    hide Kid, Inside;
    var next := r.branch[l];
    if next == null {
      child := new Raa(r.layers - 1);
      r.branch[l] := child;
      r.Repr := r.Repr + child.Repr;
      forall i: nat | i < SIZE && r.branch[i] != null ensures r.GoodKid(r.branch[i]) && (i != l ==> r.branch[i].Repr !! child.Repr) {
        if i != l { assert old(r.GoodKid(r.branch[i])); }
      }
      forall q: nat | q < |r.vals|
      ensures Kid(q, r.layers) < SIZE && r.vals[q] == KidValue(r.branch[..][Kid(q, r.layers)], Inside(q, r.layers))
    {
        Place(q, 0, r.layers);
      }
    } else {
      child := next;
    }
  }

  // The walk down to the leaf, with the nodes that are missing on the way.
  method Put(r: Raa, posn: nat, value: int)
    requires r.Valid() && posn < Span(r.layers)
    modifies r.Repr
    ensures r.Valid() && fresh(r.Repr - old(r.Repr)) && r.vals == old(r.vals)[posn := value]
    decreases r.layers, 2
  {
    if r.layers == 0 {
      r.leaf[posn] := value;
      r.vals := r.vals[posn := value];
    } else {
      SpanIsShift(r.layers);
      Place(posn, 0, r.layers);
      assert posn / Pow2(r.shift) == Kid(posn, r.layers) && posn % Pow2(r.shift) == Inside(posn, r.layers);
      hide Kid, Inside, Span, Pow2;
      var l := posn / Pow2(r.shift);
      var child := Child(r, l);
      PutBelow(r, l, child, posn, posn % Pow2(r.shift), value);
    }
  }

  // The children of r but child l, as they were.
  twostate predicate OthersKept(r: Raa, l: nat)
    requires r.branch.Length == SIZE
    reads r.branch, set k | k in r.branch[..] && k != null :: k
  {
    r.branch[..] == old(r.branch[..]) &&
    forall i: nat :: i < SIZE && i != l && r.branch[i] != null ==>
      r.branch[i] in r.branch[..] && r.branch[i].Repr == old(r.branch[i].Repr) && r.branch[i].vals == old(r.branch[i].vals)
  }

  lemma SelfIn(o: Raa)
    requires o.Valid()
    ensures o in o.Repr && |o.vals| == Span(o.layers)
  {}

  // The write below child l: nothing else of r changes.
  method PutKid(r: Raa, l: nat, child: Raa, p: nat, value: int)
    requires r.Valid() && r.layers > 0 && l < SIZE && child == r.branch[l] && p < Span(r.layers - 1) == |child.vals|
    modifies child.Repr
    ensures child.Valid() && fresh(child.Repr - old(child.Repr)) && child.vals == old(child.vals)[p := value]
    ensures OthersKept(r, l) && forall i: nat :: i < SIZE && i != l && r.branch[i] != null ==> r.branch[i].Valid()
    decreases r.layers, 0
  {
    assert r.GoodKid(child);
    assert forall i: nat :: i < SIZE && i != l && r.branch[i] != null ==> r.GoodKid(r.branch[i]) && r.branch[i].Repr !! child.Repr;
    forall i: nat | i < SIZE && r.branch[i] != null ensures r.branch[i] in r.branch[i].Repr {
      SelfIn(r.branch[i]);
    }
    SelfIn(child);
    hide KidsTied, Kid, Inside, Span, Pow2;
    Put(child, p, value);
  }

  method PutBelow(r: Raa, l: nat, child: Raa, ghost posn: nat, p: nat, value: int)
    requires r.Valid() && r.layers > 0 && posn < Span(r.layers) && l == Kid(posn, r.layers) < SIZE && p == Inside(posn, r.layers)
    requires child == r.branch[l] && p < Span(r.layers - 1)
    modifies r`Repr, r`vals, child.Repr
    ensures r.Valid() && fresh(r.Repr - old(r.Repr)) && r.vals == old(r.vals)[posn := value]
    decreases r.layers, 1
  {
    hide Kid, Inside, Span, Pow2;
    SelfIn(child);
    PutKid(r, l, child, p, value);
    r.Repr := r.Repr + child.Repr;
    r.vals := r.vals[posn := value];
    forall q: nat | q < |r.vals|
      ensures Kid(q, r.layers) < SIZE && r.vals[q] == KidValue(r.branch[..][Kid(q, r.layers)], Inside(q, r.layers))
    {
      Place(q, posn, r.layers);
      Place(q, 0, r.layers);
    }
    assert KidsTied(r.branch[..], r.vals, r.layers);
    hide KidsTied, KidValue;
  }

  // raa_write. Positions below 2^30 never need more than one layer, so the capacities
  // stay in 32 bits.
  method Write(root: Raa, posn: nat, value: int) returns (result: Raa)
    requires root.Valid()
    modifies root.Repr
    ensures result.Valid() && fresh(result.Repr - old(root.Repr))
    ensures forall q: nat :: At(result, q) == if q == posn then value else old(At(root, q))
    ensures root.layers <= 1 && posn < 0x4000_0000 ==> result.layers <= 1
  {
    result := root;
    SpanIsShift(result.layers);
    while Pow2(result.shift + LAYERSHIFT) <= posn
      invariant result.Valid() && fresh(result.Repr - old(root.Repr)) && result.layers >= root.layers
      invariant Pow2(result.shift + LAYERSHIFT) == Span(result.layers)
      invariant forall q: nat :: At(result, q) == old(At(root, q))
      invariant root.layers <= 1 && posn < 0x4000_0000 ==> result.layers <= 1
      decreases posn - Span(result.layers)
    {
      result := AddLayer(result);
      SpanIsShift(result.layers);
    }
    Put(result, posn, value);
  }
}
