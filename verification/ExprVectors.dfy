// Relocatable expression vectors: add_vectors, scalar_mult and the addition level of the
// evaluator in sdk/as/eval.c, and the classification of vectors in sdk/as/exprlib.c.
module ExprVectors {
  import opened Base
  import opened Operands

  // The kinds of term (sdk/as/as.h, sdk/as/regs.h). Registers come below these.
  const UNKNOWN := 165
  const SIMPLE := 166
  const WRT := 167
  const SEGBASE := 168
  const FAR := SEGBASE + 0x4000_0000

  const WORD := 0x1_0000_0000_0000_0000

  type Int64 = x: int | -0x8000_0000_0000_0000 <= x < 0x8000_0000_0000_0000

  datatype Term = Term(kind: int, value: Int64)

  // A vector holds the terms before the terminator, which has kind zero.
  type Vec = seq<Term>

  // int64_t arithmetic, taken to wrap around.
  function Wrap64(x: int): (r: Int64) {
    Wrap(x, WORD)
  }

  // ----- What a vector means -----

  predicate Sorted(v: Vec) {
    (forall t <- v :: t.kind > 0) && forall i, j :: 0 <= i < j < |v| ==> v[i].kind < v[j].kind
  }

  // The multiple of a kind.
  function Coef(v: Vec, k: int): Int64 {
    if v == [] then 0 else if v[0].kind == k then v[0].value else Coef(v[1..], k)
  }

  // The number a vector stands for when the kinds stand for the numbers of env.
  function Eval(v: Vec, env: int -> int): int {
    if v == [] then 0 else v[0].value * env(v[0].kind) + Eval(v[1..], env)
  }

  predicate Same(x: int, y: int) { x % WORD == y % WORD }

  predicate Near(v: Vec) { forall t <- v :: t.kind < FAR }

  predicate Has(v: Vec, k: int) { exists t <- v :: t.kind == k }

  // The terms that count: a zero multiple is insignificant.
  function Significant(v: Vec): Vec {
    if v == [] then [] else (if v[0].value != 0 then [v[0]] else []) + Significant(v[1..])
  }

  predicate ReallySimple(v: Vec) {
    var s := Significant(v);
    s == [] || (|s| == 1 && s[0].kind == SIMPLE)
  }

  // What the evaluator builds: sorted, and with no zero multiple of a far segment.
  predicate Valid(v: Vec) { Sorted(v) && forall t <- v :: t.kind >= FAR ==> t.value != 0 }

  lemma SortedRest(v: Vec)
    requires Sorted(v) && v != []
    ensures Sorted(v[1..]) && v[0].kind > 0 && forall t <- v[1..] :: v[0].kind < t.kind
    ensures forall t <- v[1..] :: t in v
  {}

  lemma {:induction false} CoefAbsent(v: Vec, k: int)
    requires forall t <- v :: t.kind != k
    ensures Coef(v, k) == 0
  {
    if v != [] {
      assert v[0] in v;
      CoefAbsent(v[1..], k);
    }
  }

  lemma {:induction false} CoefAt(v: Vec, i: nat)
    requires Sorted(v) && i < |v|
    ensures Coef(v, v[i].kind) == v[i].value
  {
    SortedRest(v);
    if i > 0 {
      assert v[1..][i - 1] in v[1..];
      CoefAt(v[1..], i - 1);
    }
  }

  lemma {:induction false} CoefAppend(v: Vec, w: Vec, k: int)
    ensures Coef(v + w, k) == if Has(v, k) then Coef(v, k) else Coef(w, k)
  {
    if v == [] {
      assert v + w == w;
    } else {
      assert (v + w)[1..] == v[1..] + w;
      CoefAppend(v[1..], w, k);
      assert Has(v, k) <==> v[0].kind == k || Has(v[1..], k) by {
        if Has(v, k) && v[0].kind != k {
          var t :| t in v && t.kind == k;
          assert t in v[1..];
        }
      }
    }
  }

  // ----- Addition -----

  // What is left of a vector when the other is used up.
  function Rest(v: Vec, preserve: bool): Vec {
    if v == [] || !(preserve || v[0].kind < FAR) then [] else [v[0]] + Rest(v[1..], preserve)
  }

  predicate Merging(p: Vec, q: Vec) { p != [] && q != [] && p[0].kind < FAR && q[0].kind < FAR }

  // The merge of add_vectors: it stops behind an unknown term.
  function Merged(p: Vec, q: Vec, preserve: bool): Vec
    decreases |p| + |q|
  {
    if !Merging(p, q) then Rest(p, preserve) + Rest(q, preserve)
    else if p[0].kind > q[0].kind then
      [q[0]] + if q[0].kind == UNKNOWN then [] else Merged(p, q[1..], preserve)
    else if p[0].kind < q[0].kind then
      [p[0]] + if p[0].kind == UNKNOWN then [] else Merged(p[1..], q, preserve)
    else
      var sum := Wrap64(p[0].value + q[0].value);
      (if sum != 0 then [Term(p[0].kind, sum)] else []) +
      if p[0].kind == UNKNOWN then [] else Merged(p[1..], q[1..], preserve)
  }

  function Sum(p: Vec, q: Vec): Vec { Merged(p, q, ReallySimple(p) || ReallySimple(q)) }

  lemma SignificantStep(v: Vec, i: nat)
    requires i < |v|
    ensures Significant(v[i..]) == (if v[i].value != 0 then [v[i]] else []) + Significant(v[i + 1..])
  {
    assert v[i..][1..] == v[i + 1..];
  }

  // The first significant term from i on.
  method SkipZeros(v: Vec, i: nat) returns (j: nat)
    requires i <= |v|
    ensures i <= j <= |v| && (j < |v| ==> v[j].value != 0)
    ensures Significant(v[i..]) == if j == |v| then [] else [v[j]] + Significant(v[j + 1..])
  {
    hide Significant;
    j := i;
    NoneSignificant();
    while j < |v| && v[j].value == 0
      invariant i <= j <= |v| && Significant(v[i..]) == Significant(v[j..])
    {
      SignificantStep(v, j);
      j := j + 1;
    }
    if j < |v| { SignificantStep(v, j); } else { assert v[j..] == []; }
  }

  lemma NoneSignificant()
    ensures Significant([]) == []
  {}

  // is_really_simple.
  method IsReallySimple(v: Vec) returns (r: bool)
    ensures r == ReallySimple(v)
  {
    hide Significant;
    assert v[0..] == v;
    var i := SkipZeros(v, 0);
    if i == |v| { return true; }
    if v[i].kind != SIMPLE { return false; }
    var j := SkipZeros(v, i + 1);
    return j == |v|;
  }

  lemma Regroup(a: Vec, b: Vec, c: Vec)
    ensures a + b + c == a + (b + c)
  {}

  // One turn of the merge loop.
  method MergeTurn(p: Vec, q: Vec, i: nat, j: nat, temp: Vec, ghost preserve: bool) returns (r: Vec, i': nat, j': nat, stop: bool)
    requires i < |p| && j < |q| && Merging(p[i..], q[j..])
    ensures i <= i' <= |p| && j <= j' <= |q| && i' + j' > i + j
    ensures r + (if stop then [] else Merged(p[i'..], q[j'..], preserve)) == temp + Merged(p[i..], q[j..], preserve)
  {
    hide *;
    Tails(p, i);
    Tails(q, j);
    MergedStep(p[i..], q[j..], preserve);
    i', j' := i, j;
    var added, last;
    if p[i].kind > q[j].kind {
      added := [q[j]];
      last, j' := q[j].kind, j + 1;
    } else if p[i].kind < q[j].kind {
      added := [p[i]];
      last, i' := p[i].kind, i + 1;
    } else {
      var sum := Wrap64(p[i].value + q[j].value);
      added := if sum != 0 then [Term(p[i].kind, sum)] else [];
      last, i', j' := p[i].kind, i + 1, j + 1;
    }
    stop := last == UNKNOWN;
    r := temp + added;
    Regroup(temp, added, if stop then [] else Merged(p[i'..], q[j'..], preserve));
  }

  lemma Tails(v: Vec, i: nat)
    requires i < |v|
    ensures v[i..] != [] && v[i..][0] == v[i] && v[i..][1..] == v[i + 1..]
  {}

  lemma MergedStep(p: Vec, q: Vec, preserve: bool)
    requires Merging(p, q)
    ensures p[0].kind > q[0].kind ==>
              Merged(p, q, preserve) == [q[0]] + if q[0].kind == UNKNOWN then [] else Merged(p, q[1..], preserve)
    ensures p[0].kind < q[0].kind ==>
              Merged(p, q, preserve) == [p[0]] + if p[0].kind == UNKNOWN then [] else Merged(p[1..], q, preserve)
    ensures p[0].kind == q[0].kind ==>
              var sum := Wrap64(p[0].value + q[0].value);
              Merged(p, q, preserve) ==
              (if sum != 0 then [Term(p[0].kind, sum)] else []) +
              if p[0].kind == UNKNOWN then [] else Merged(p[1..], q[1..], preserve)
  {
    hide Wrap64;
  }

  // The loops that copy what is left.
  method CopyRest(v: Vec, i: nat, preserve: bool, temp: Vec) returns (r: Vec)
    requires i <= |v|
    ensures r == temp + Rest(v[i..], preserve)
  {
    r := temp;
    var k := i;
    while k < |v| && (preserve || v[k].kind < FAR)
      invariant k <= |v| && r + Rest(v[k..], preserve) == temp + Rest(v[i..], preserve)
    {
      assert v[k..][1..] == v[k + 1..];
      r := r + [v[k]];
      k := k + 1;
    }
  }

  // add_vectors.
  method AddVectors(p: Vec, q: Vec) returns (r: Vec)
    ensures r == Sum(p, q)
  {
    hide ReallySimple, Merged, Rest;
    var a := IsReallySimple(p);
    var b := IsReallySimple(q);
    var preserve := a || b;
    r := [];
    var i, j := 0, 0;
    assert p[0..] == p && q[0..] == q;
    while i < |p| && j < |q| && p[i].kind < FAR && q[j].kind < FAR
      invariant i <= |p| && j <= |q| && r + Merged(p[i..], q[j..], preserve) == Sum(p, q)
      decreases |p| + |q| - i - j
    {
      var stop;
      r, i, j, stop := MergeTurn(p, q, i, j, r, preserve);
      if stop { return; }
    }
    MergedEnd(p[i..], q[j..], preserve);
    r := CopyRest(p, i, preserve, r);
    r := CopyRest(q, j, preserve, r);
  }

  lemma MergedEnd(p: Vec, q: Vec, preserve: bool)
    requires !Merging(p, q)
    ensures Merged(p, q, preserve) == Rest(p, preserve) + Rest(q, preserve)
  {}

  // The merge meets an unknown term of one vector before the other vector ends.
  predicate Stops(p: Vec, q: Vec) {
    (Has(p, UNKNOWN) && Has(q, UNKNOWN)) ||
    (Has(p, UNKNOWN) && exists t <- q :: UNKNOWN <= t.kind < FAR) || (Has(q, UNKNOWN) && exists t <- p :: UNKNOWN <= t.kind < FAR)
  }

  lemma {:induction false} RestCoef(v: Vec, preserve: bool, k: int)
    requires Sorted(v)
    ensures Coef(Rest(v, preserve), k) == if k < FAR || preserve then Coef(v, k) else 0
    ensures (forall t <- Rest(v, preserve) :: t in v && (preserve || t.kind < FAR)) && Sorted(Rest(v, preserve))
    ensures Has(Rest(v, preserve), k) <==> Has(v, k) && (k < FAR || preserve)
  {
    RestTerms(v, preserve);
    RestHas(v, preserve, k);
    hide Has;
    if v != [] {
      SortedRest(v);
      if preserve || v[0].kind < FAR {
        RestCoef(v[1..], preserve, k);
        assert Rest(v, preserve)[1..] == Rest(v[1..], preserve);
      } else if k < FAR {
        CoefAbsent(v, k);
      }
    }
  }

  lemma {:induction false} RestTerms(v: Vec, preserve: bool)
    requires Sorted(v)
    ensures (forall t <- Rest(v, preserve) :: t in v && (preserve || t.kind < FAR)) && Sorted(Rest(v, preserve))
  {
    if v != [] {
      SortedRest(v);
      RestTerms(v[1..], preserve);
    }
  }

  lemma {:induction false} RestHas(v: Vec, preserve: bool, k: int)
    requires Sorted(v)
    ensures Has(Rest(v, preserve), k) <==> Has(v, k) && (k < FAR || preserve)
  {
    NothingHas(k);
    if v != [] {
      SortedRest(v);
      HasStep(v, k);
      if preserve || v[0].kind < FAR {
        var r := Rest(v[1..], preserve);
        RestHas(v[1..], preserve, k);
        HasStep([v[0]] + r, k);
        assert ([v[0]] + r)[1..] == r;
      } else {
        HasFar(v, k);
      }
      hide Has, Sorted;
    }
  }

  lemma NothingHas(k: int)
    ensures !Has([], k)
  {}

  lemma HasFar(v: Vec, k: int)
    requires Sorted(v) && v != [] && v[0].kind >= FAR
    ensures Has(v, k) ==> k >= FAR
  {}

  lemma HasStep(v: Vec, k: int)
    requires v != []
    ensures Has(v, k) <==> v[0].kind == k || Has(v[1..], k)
  {
    assert Has(v, k) ==> exists t <- v :: t.kind == k && (t == v[0] || t in v[1..]);
    assert v[0] in v && forall t <- v[1..] :: t in v;
  }

  // Stops, seen from the heads: dropping a smaller head that is not unknown changes nothing.
  predicate Beyond(v: Vec) { exists t <- v :: UNKNOWN <= t.kind < FAR }

  lemma BeyondStep(v: Vec)
    requires v != []
    ensures Beyond(v) <==> UNKNOWN <= v[0].kind < FAR || Beyond(v[1..])
    ensures Has(v, UNKNOWN) ==> Beyond(v)
  {
    assert Beyond(v) ==> exists t <- v :: UNKNOWN <= t.kind < FAR && (t == v[0] || t in v[1..]);
    assert v[0] in v && forall t <- v[1..] :: t in v;
  }

  lemma StopsIs(p: Vec, q: Vec)
    ensures Stops(p, q) <==> (Has(p, UNKNOWN) && Beyond(q)) || (Has(q, UNKNOWN) && Beyond(p))
  {
    if p != [] { BeyondStep(p); }
    if q != [] { BeyondStep(q); }
  }

  lemma StopsSwap(p: Vec, q: Vec)
    ensures Stops(p, q) <==> Stops(q, p)
  {}

  lemma AllAbove(v: Vec, k: int)
    requires Sorted(v) && v != [] && k < v[0].kind
    ensures forall t <- v :: k < t.kind
    ensures !Has(v, k) && Coef(v, k) == 0
  {
    CoefAbsent(v, k);
  }

  // A smaller head.
  lemma StopsDrop(p: Vec, q: Vec)
    requires Sorted(p) && Sorted(q) && Merging(p, q) && p[0].kind < q[0].kind
    ensures p[0].kind == UNKNOWN ==> Stops(p, q)
    ensures p[0].kind != UNKNOWN ==> (Stops(p, q) <==> Stops(p[1..], q))
  {
    StopsIs(p, q);
    StopsIs(p[1..], q);
    BeyondStep(p);
    BeyondStep(q);
    HasStep(p, UNKNOWN);
    if p[0].kind > UNKNOWN { AllAbove(q, UNKNOWN); }
    hide Stops, Beyond, Has, Sorted;
  }

  lemma StopsBoth(p: Vec, q: Vec)
    requires Sorted(p) && Sorted(q) && Merging(p, q) && p[0].kind == q[0].kind
    ensures p[0].kind == UNKNOWN ==> Stops(p, q)
    ensures p[0].kind != UNKNOWN ==> (Stops(p, q) <==> Stops(p[1..], q[1..]))
  {
    StopsIs(p, q);
    StopsIs(p[1..], q[1..]);
    BeyondStep(p);
    BeyondStep(q);
    HasStep(p, UNKNOWN);
    HasStep(q, UNKNOWN);
    if p[0].kind > UNKNOWN {
      SortedRest(p);
      SortedRest(q);
    }
    hide Stops, Beyond, Sorted;
  }

  lemma StopsEnd(p: Vec, q: Vec)
    requires Sorted(p) && Sorted(q) && !Merging(p, q)
    ensures !Stops(p, q)
  {
    StopsIs(p, q);
    if p != [] && q != [] {
      SortedRest(p);
      SortedRest(q);
      BeyondStep(p);
      BeyondStep(q);
      assert p[0].kind >= FAR ==> forall t <- p :: t.kind >= FAR by { assert forall t <- p :: t == p[0] || t in p[1..]; }
      assert q[0].kind >= FAR ==> forall t <- q :: t.kind >= FAR by { assert forall t <- q :: t == q[0] || t in q[1..]; }
    }
    hide Stops, Sorted;
  }

  lemma NearRest(v: Vec)
    requires v != []
    ensures Near(v) <==> v[0].kind < FAR && Near(v[1..])
  {
    assert v[0] in v && (forall t <- v[1..] :: t in v) && forall t <- v :: t == v[0] || t in v[1..];
  }

  // What the code makes of a kind's two multiples.
  function Expected(p: Vec, q: Vec, preserve: bool, k: int): Int64 {
    if (Stops(p, q) && k > UNKNOWN) || (k >= FAR && !preserve) then 0 else Wrap64(Coef(p, k) + Coef(q, k))
  }

  lemma CoefFront(t: Term, r: Vec, k: int)
    ensures Coef([t] + r, k) == if t.kind == k then t.value else Coef(r, k)
    ensures Coef([t], k) == if t.kind == k then t.value else 0
    ensures [] + r == r && [t] + [] == [t]
  {
    assert ([t] + r)[1..] == r;
  }

  lemma WrapNothing(x: Int64)
    ensures Wrap64(x) == x && Wrap64(x + 0) == x && Wrap64(0 + x) == x
  {}

  lemma NoUnknownAhead(p: Vec, q: Vec)
    requires Sorted(p) && Sorted(q) && p != [] && q != [] && p[0].kind > UNKNOWN && q[0].kind > UNKNOWN
    ensures !Stops(p, q)
  {
    AllAbove(p, UNKNOWN);
    AllAbove(q, UNKNOWN);
  }

  lemma AbsentCoef(v: Vec, k: int)
    ensures !Has(v, k) ==> Coef(v, k) == 0
  {
    if !Has(v, k) { CoefAbsent(v, k); }
  }

  lemma ExpectedIs(p: Vec, q: Vec, preserve: bool, k: int)
    ensures !Stops(p, q) ==> Expected(p, q, preserve, k) == if k >= FAR && !preserve then 0 else Wrap64(Coef(p, k) + Coef(q, k))
  {
    hide Stops, Wrap64, Coef;
  }

  lemma EndCoef(p: Vec, q: Vec, preserve: bool, k: int)
    requires Sorted(p) && Sorted(q) && (preserve ==> Near(p) || Near(q)) && !Merging(p, q)
    ensures Coef(Merged(p, q, preserve), k) == Expected(p, q, preserve, k)
  {
    hide *;
    StopsEnd(p, q);
    ExpectedIs(p, q, preserve, k);
    RestCoef(p, preserve, k);
    RestCoef(q, preserve, k);
    CoefAppend(Rest(p, preserve), Rest(q, preserve), k);
    NotBoth(p, q, preserve, k);
    MergedEnd(p, q, preserve);
    AbsentCoef(p, k);
    AbsentCoef(q, k);
    WrapNothing(Coef(p, k));
    WrapNothing(Coef(q, k));
    WrapNothing(0);
  }

  lemma NotBoth(p: Vec, q: Vec, preserve: bool, k: int)
    requires Sorted(p) && Sorted(q) && (preserve ==> Near(p) || Near(q)) && !Merging(p, q)
    ensures !(Has(p, k) && Has(q, k) && (k < FAR || preserve))
  {
    if p != [] && q != [] {
      SortedRest(p);
      SortedRest(q);
      assert p[0].kind >= FAR ==> forall t <- p :: t.kind >= FAR by { assert forall t <- p :: t == p[0] || t in p[1..]; }
      assert q[0].kind >= FAR ==> forall t <- q :: t.kind >= FAR by { assert forall t <- q :: t == q[0] || t in q[1..]; }
    }
    hide Sorted;
  }

  // One turn of the merge, for a smaller head x of the vector v; w is the other vector.
  lemma TurnCoef(v: Vec, w: Vec, r: Vec, preserve: bool, k: int)
    requires Sorted(v) && Sorted(w) && Merging(v, w) && v[0].kind < w[0].kind
    requires if v[0].kind == UNKNOWN then r == [] else Coef(r, k) == Expected(v[1..], w, preserve, k)
    ensures Coef([v[0]] + r, k) == Expected(v, w, preserve, k)
  {
    StopsDrop(v, w);
    CoefFront(v[0], r, k);
    WrapNothing(v[0].value);
    if v[0].kind > UNKNOWN { NoUnknownAhead(v, w); }
    if k <= v[0].kind { AllAbove(w, k); }
    if k < v[0].kind { AllAbove(v, k); }
    hide Stops, Sorted, Wrap64;
  }

  lemma DropCoef(p: Vec, q: Vec, preserve: bool, k: int)
    requires Sorted(p) && Sorted(q) && Merging(p, q) && p[0].kind < q[0].kind
    requires p[0].kind != UNKNOWN ==> Coef(Merged(p[1..], q, preserve), k) == Expected(p[1..], q, preserve, k)
    ensures Coef(Merged(p, q, preserve), k) == Expected(p, q, preserve, k)
  {
    hide Expected, Sorted, Coef;
    TurnCoef(p, q, if p[0].kind == UNKNOWN then [] else Merged(p[1..], q, preserve), preserve, k);
  }

  lemma ExpectedSwap(p: Vec, q: Vec, preserve: bool, k: int)
    ensures Expected(p, q, preserve, k) == Expected(q, p, preserve, k)
  {
    StopsSwap(p, q);
    hide Stops, Wrap64;
    assert Coef(p, k) + Coef(q, k) == Coef(q, k) + Coef(p, k);
  }

  lemma DropCoefRight(p: Vec, q: Vec, preserve: bool, k: int)
    requires Sorted(p) && Sorted(q) && Merging(p, q) && q[0].kind < p[0].kind
    requires q[0].kind != UNKNOWN ==> Coef(Merged(p, q[1..], preserve), k) == Expected(p, q[1..], preserve, k)
    ensures Coef(Merged(p, q, preserve), k) == Expected(p, q, preserve, k)
  {
    ExpectedSwap(p, q, preserve, k);
    ExpectedSwap(p, q[1..], preserve, k);
    hide Expected, Sorted, Coef;
    TurnCoef(q, p, if q[0].kind == UNKNOWN then [] else Merged(p, q[1..], preserve), preserve, k);
  }

  lemma BothCoef(p: Vec, q: Vec, preserve: bool, k: int)
    requires Sorted(p) && Sorted(q) && Merging(p, q) && p[0].kind == q[0].kind
    requires p[0].kind != UNKNOWN ==> Coef(Merged(p[1..], q[1..], preserve), k) == Expected(p[1..], q[1..], preserve, k)
    ensures Coef(Merged(p, q, preserve), k) == Expected(p, q, preserve, k)
  {
    var sum := Wrap64(p[0].value + q[0].value);
    var r := if p[0].kind == UNKNOWN then [] else Merged(p[1..], q[1..], preserve);
    assert Merged(p, q, preserve) == (if sum != 0 then [Term(p[0].kind, sum)] else []) + r;
    CoefFront(Term(p[0].kind, sum), r, k);
    hide Merged;
    PairCoef(p, q, r, preserve, k);
    hide Expected, Wrap64, Coef;
  }

  // One turn of the merge for equal heads.
  lemma PairCoef(p: Vec, q: Vec, r: Vec, preserve: bool, k: int)
    requires Sorted(p) && Sorted(q) && Merging(p, q) && p[0].kind == q[0].kind
    requires if p[0].kind == UNKNOWN then r == [] else Coef(r, k) == Expected(p[1..], q[1..], preserve, k)
    ensures k != p[0].kind ==> Coef(r, k) == Expected(p, q, preserve, k)
    ensures k == p[0].kind ==> Expected(p, q, preserve, k) == Wrap64(p[0].value + q[0].value) && Coef(r, k) == 0
  {
    StopsBoth(p, q);
    if p[0].kind > UNKNOWN { NoUnknownAhead(p, q); }
    if k < p[0].kind {
      AllAbove(p, k);
      AllAbove(q, k);
    }
    TailAbsent(p, k);
    TailAbsent(q, k);
    WrapNothing(0);
    hide Stops, Sorted, Wrap64;
  }

  lemma TailAbsent(v: Vec, k: int)
    requires Sorted(v) && v != []
    ensures k <= v[0].kind ==> Coef(v[1..], k) == 0
  {
    SortedRest(v);
    if k <= v[0].kind { CoefAbsent(v[1..], k); }
  }

  lemma {:induction false} MergedCoef(p: Vec, q: Vec, preserve: bool, k: int)
    requires Sorted(p) && Sorted(q) && (preserve ==> Near(p) || Near(q))
    ensures Coef(Merged(p, q, preserve), k) == Expected(p, q, preserve, k)
    decreases |p| + |q|
  {
    hide Stops, Has, Near;
    var r := Merged(p, q, preserve);
    if !Merging(p, q) {
      EndCoef(p, q, preserve, k);
    } else if p[0].kind == q[0].kind {
      StopsBoth(p, q);
      SortedRest(p);
      SortedRest(q);
      NearRest(p);
      NearRest(q);
      if p[0].kind != UNKNOWN { MergedCoef(p[1..], q[1..], preserve, k); }
      BothCoef(p, q, preserve, k);
    } else if p[0].kind < q[0].kind {
      StopsDrop(p, q);
      SortedRest(p);
      NearRest(p);
      if p[0].kind != UNKNOWN { MergedCoef(p[1..], q, preserve, k); }
      DropCoef(p, q, preserve, k);
    } else {
      StopsSwap(p, q);
      StopsSwap(p, q[1..]);
      StopsDrop(q, p);
      SortedRest(q);
      NearRest(q);
      if q[0].kind != UNKNOWN { MergedCoef(p, q[1..], preserve, k); }
      DropCoefRight(p, q, preserve, k);
    }
  }

  // ----- The order of a sum -----

  // The one way a sum comes out of order: the first vector has a far segment that is kept,
  // and the second a term beyond everything near in the first, which is copied behind it.
  predicate Disordered(p: Vec, q: Vec, preserve: bool) {
    preserve && !Stops(p, q) && !Near(p) && exists t <- q :: t.kind < FAR && PastNear(p, t.kind)
  }

  predicate PastNear(p: Vec, k: int) { forall t <- p :: t.kind < FAR ==> t.kind < k }

  predicate Above(v: Vec, k: int) { forall t <- v :: k < t.kind }

  lemma PastNearStep(p: Vec, k: int)
    requires p != []
    ensures PastNear(p, k) <==> (p[0].kind < FAR ==> p[0].kind < k) && PastNear(p[1..], k)
  {
    assert p[0] in p && (forall t <- p[1..] :: t in p) && forall t <- p :: t == p[0] || t in p[1..];
  }

  // Whether q has a near term beyond everything near in p.
  predicate Outlast(p: Vec, q: Vec) { exists t <- q :: t.kind < FAR && PastNear(p, t.kind) }

  lemma OutlastDrop(p: Vec, q: Vec)
    requires Sorted(p) && Sorted(q) && Merging(p, q)
    ensures p[0].kind < q[0].kind ==> (Outlast(p, q) <==> Outlast(p[1..], q))
    ensures p[0].kind > q[0].kind ==> (Outlast(p, q) <==> Outlast(p, q[1..]))
    ensures p[0].kind == q[0].kind ==> (Outlast(p, q) <==> Outlast(p[1..], q[1..]))
  {
    SortedRest(p);
    SortedRest(q);
    assert q[0] in q && (forall t <- q[1..] :: t in q) && forall t <- q :: t == q[0] || t in q[1..];
    forall t <- q
      ensures PastNear(p, t.kind) <==> p[0].kind < t.kind && PastNear(p[1..], t.kind)
    {
      PastNearStep(p, t.kind);
    }
    hide PastNear, Sorted;
  }

  lemma SortedFront(t: Term, r: Vec)
    ensures Sorted([t] + r) <==> t.kind > 0 && Sorted(r) && Above(r, t.kind)
  {
    var s := [t] + r;
    assert s[1..] == r;
    if Sorted(s) {
      SortedRest(s);
      assert s[0] in s;
    }
    if t.kind > 0 && Sorted(r) && Above(r, t.kind) {
      assert forall x <- s :: x == t || x in r;
      assert forall j :: 0 < j < |s| ==> s[j] == r[j - 1] && r[j - 1] in r;
    }
  }

  // A merged vector has only kinds of the two.
  lemma {:induction false} MergedAbove(p: Vec, q: Vec, preserve: bool, k: int)
    requires Above(p, k) && Above(q, k)
    ensures Above(Merged(p, q, preserve), k)
    decreases |p| + |q|
  {
    if !Merging(p, q) {
      RestAbove(p, preserve, k);
      RestAbove(q, preserve, k);
    } else {
      assert p[0] in p && q[0] in q && (forall t <- p[1..] :: t in p) && forall t <- q[1..] :: t in q;
      MergedAbove(p[1..], q, preserve, k);
      MergedAbove(p, q[1..], preserve, k);
      MergedAbove(p[1..], q[1..], preserve, k);
      hide Wrap64;
    }
  }

  lemma {:induction false} RestAbove(v: Vec, preserve: bool, k: int)
    requires Above(v, k)
    ensures Above(Rest(v, preserve), k)
  {
    if v != [] {
      assert v[0] in v;
      RestAbove(v[1..], preserve, k);
    }
  }

  lemma HeadAbove(v: Vec, k: int)
    requires Sorted(v) && v != []
    ensures Above(v, k) <==> k < v[0].kind
    ensures Above(v[1..], v[0].kind) && v[0].kind > 0 && Sorted(v[1..])
  {
    SortedRest(v);
    assert v[0] in v && forall t <- v :: t == v[0] || t in v[1..];
  }

  lemma DisorderedIs(p: Vec, q: Vec, preserve: bool)
    ensures Disordered(p, q, preserve) <==> preserve && !Stops(p, q) && !Near(p) && Outlast(p, q)
  {}

  // A sum is in order exactly when the two vectors do not meet in that way.
  lemma {:induction false} MergedSorted(p: Vec, q: Vec, preserve: bool)
    requires Sorted(p) && Sorted(q) && (preserve ==> Near(p) || Near(q))
    ensures Sorted(Merged(p, q, preserve)) <==> !Disordered(p, q, preserve)
    decreases |p| + |q|
  {
    hide *;
    DisorderedIs(p, q, preserve);
    if !Merging(p, q) {
      EndSorted(p, q, preserve);
    } else {
      MergingParts(p, q);
      MergedStep(p, q, preserve);
      OutlastDrop(p, q);
      HeadAbove(p, q[0].kind);
      HeadAbove(q, p[0].kind);
      NearRest(p);
      NearRest(q);
      FrontOne(p[0]);
      FrontOne(q[0]);
      if p[0].kind == q[0].kind {
        var t := Term(p[0].kind, Wrap64(p[0].value + q[0].value));
        FrontOne(t);
        StopsBoth(p, q);
        if p[0].kind != UNKNOWN {
          DisorderedIs(p[1..], q[1..], preserve);
          MergedSorted(p[1..], q[1..], preserve);
          MergedAbove(p[1..], q[1..], preserve, p[0].kind);
          SortedFront(t, Merged(p[1..], q[1..], preserve));
        }
      } else if p[0].kind < q[0].kind {
        StopsDrop(p, q);
        if p[0].kind != UNKNOWN {
          DisorderedIs(p[1..], q, preserve);
          MergedSorted(p[1..], q, preserve);
          MergedAbove(p[1..], q, preserve, p[0].kind);
          SortedFront(p[0], Merged(p[1..], q, preserve));
        }
      } else {
        StopsSwap(p, q);
        StopsSwap(p, q[1..]);
        StopsDrop(q, p);
        if q[0].kind != UNKNOWN {
          DisorderedIs(p, q[1..], preserve);
          MergedSorted(p, q[1..], preserve);
          MergedAbove(p, q[1..], preserve, q[0].kind);
          SortedFront(q[0], Merged(p, q[1..], preserve));
        }
      }
    }
  }

  lemma MergingParts(p: Vec, q: Vec)
    ensures Merging(p, q) <==> p != [] && q != [] && p[0].kind < FAR && q[0].kind < FAR
    ensures Merging(p, q) <==> Merging(q, p)
  {}

  lemma FrontOne(t: Term)
    ensures t.kind > 0 ==> Sorted([t])
    ensures Sorted([]) && forall r: Vec :: [] + r == r && r + [] == r
  {}

  lemma EndSorted(p: Vec, q: Vec, preserve: bool)
    requires Sorted(p) && Sorted(q) && (preserve ==> Near(p) || Near(q)) && !Merging(p, q)
    ensures Sorted(Merged(p, q, preserve)) <==> !(preserve && !Stops(p, q) && !Near(p) && Outlast(p, q))
  {
    StopsEnd(p, q);
    MergedEnd(p, q, preserve);
    RestCoef(p, preserve, 0);
    RestCoef(q, preserve, 0);
    var a, b := Rest(p, preserve), Rest(q, preserve);
    if preserve {
      WholeRest(p);
      WholeRest(q);
    }
    hide Merged, Rest, Stops, Coef;
    if p == [] || q == [] {
      assert a + b == if p == [] then b else a;
      EmptySorted(p, q);
    } else {
      HeadAbove(p, FAR - 1);
      HeadAbove(q, FAR - 1);
      hide Sorted;
      FarEnd(p, q, preserve, a, b);
    }
  }

  lemma {:induction false} WholeRest(v: Vec)
    ensures Rest(v, true) == v
  {
    if v != [] { WholeRest(v[1..]); }
  }

  lemma EmptySorted(p: Vec, q: Vec)
    requires p == [] || q == []
    ensures Near(p) || !Outlast(p, q)
  {}

  // One of two vectors begins with a far term.
  lemma FarEnd(p: Vec, q: Vec, preserve: bool, a: Vec, b: Vec)
    requires Sorted(a) && Sorted(b) && p != [] && q != [] && (preserve ==> Near(p) || Near(q))
    requires !Merging(p, q) && (p[0].kind >= FAR ==> Above(p, FAR - 1)) && (q[0].kind >= FAR ==> Above(q, FAR - 1))
    requires preserve ==> a == p && b == q
    requires !preserve ==> (forall t <- a :: t in p && t.kind < FAR) && (forall t <- b :: t in q && t.kind < FAR)
    ensures Sorted(a + b) <==> !(preserve && !Near(p) && Outlast(p, q))
  {
    assert p[0] in p && q[0] in q;
    if !preserve {
      assert a == [] || b == [] by { assert a != [] ==> a[0] in a; assert b != [] ==> b[0] in b; }
      assert a + b == if a == [] then b else a;
    } else if p[0].kind >= FAR {
      assert PastNear(p, q[0].kind);
      assert (a + b)[0] == p[0] && (a + b)[|a|] == q[0];
    } else {
      assert forall i, j :: 0 <= i < |a| && 0 <= j < |b| ==> a[i] in a && b[j] in b && a[i].kind < b[j].kind;
    }
  }

  // ----- What a sum stands for -----

  lemma SameSum(a: int, b: int, x: int, y: int)
    requires Same(a, b) && Same(x, y)
    ensures Same(a + x, b + y)
  {}

  lemma SameSymmetric(a: int, b: int)
    ensures Same(a, a) && (Same(a, b) <==> Same(b, a))
  {}

  lemma WrapSame(x: int)
    ensures Same(Wrap64(x), x)
  {}

  lemma SameMultiple(a: int, b: int)
    ensures Same(a, b) <==> exists q: int :: a == b + q * WORD
  {
    if Same(a, b) {
      var q := a / WORD - b / WORD;
      assert a == b + q * WORD;
    }
    if q: int :| a == b + q * WORD {
      Multiple(b, q);
    }
  }

  lemma {:induction false} Multiple(b: int, q: int)
    ensures (b + q * WORD) % WORD == b % WORD
    decreases if q < 0 then -q else q
  {
    if q > 0 {
      Multiple(b, q - 1);
      assert b + q * WORD == b + (q - 1) * WORD + WORD;
    } else if q < 0 {
      Multiple(b, q + 1);
      assert b + q * WORD == b + (q + 1) * WORD - WORD;
    }
  }

  lemma SameProduct(a: int, b: int, e: int)
    requires Same(a, b)
    ensures Same(a * e, b * e)
  {
    SameMultiple(a, b);
    var q: int :| a == b + q * WORD;
    Spread(b, q, e);
    SameMultiple(a * e, b * e);
  }

  lemma Spread(b: int, q: int, e: int)
    ensures (b + q * WORD) * e == b * e + q * e * WORD
  {}

  lemma EvalFront(t: Term, r: Vec, env: int -> int)
    ensures Eval([t] + r, env) == t.value * env(t.kind) + Eval(r, env)
    ensures [] + r == r
  {
    assert ([t] + r)[1..] == r;
  }

  lemma EvalHead(v: Vec, env: int -> int)
    requires v != []
    ensures Eval(v, env) == v[0].value * env(v[0].kind) + Eval(v[1..], env)
  {}

  lemma {:induction false} EvalAppend(v: Vec, w: Vec, env: int -> int)
    ensures Eval(v + w, env) == Eval(v, env) + Eval(w, env)
  {
    if v == [] {
      assert v + w == w;
    } else {
      assert (v + w)[1..] == v[1..] + w;
      EvalAppend(v[1..], w, env);
    }
  }

  lemma {:induction false} NearWhole(v: Vec, preserve: bool)
    requires preserve || Near(v)
    ensures Rest(v, preserve) == v
  {
    if v != [] {
      NearRest(v);
      NearWhole(v[1..], preserve);
    }
  }

  // The wrapped sum of two multiples counts for both.
  lemma SumTerm(x: Int64, y: Int64, e: int, rest: int, a: int, b: int)
    requires Same(rest, a + b)
    ensures Same(Wrap64(x + y) * e + rest, x * e + a + (y * e + b))
    ensures Wrap64(x + y) == 0 ==> Same(rest, x * e + a + (y * e + b))
  {
    WrapSame(x + y);
    hide Wrap64;
    SameProduct(Wrap64(x + y), x + y, e);
    Spread2(x, y, e);
    SameSum(Wrap64(x + y) * e, (x + y) * e, rest, a + b);
    hide Same;
    assert (x + y) * e + (a + b) == x * e + a + (y * e + b);
    assert Wrap64(x + y) == 0 ==> Wrap64(x + y) * e == 0;
  }

  lemma Spread2(x: int, y: int, e: int)
    ensures (x + y) * e == x * e + y * e
  {}

  // The sum stands for the sum of the numbers, modulo 2^64, whatever the kinds stand for.
  lemma {:induction false} MergedEval(p: Vec, q: Vec, preserve: bool, env: int -> int)
    requires Sorted(p) && Sorted(q) && !Stops(p, q) && (preserve || (Near(p) && Near(q)))
    ensures Same(Eval(Merged(p, q, preserve), env), Eval(p, env) + Eval(q, env))
    decreases |p| + |q|
  {
    hide *;
    SameSymmetric(Eval(p, env) + Eval(q, env), 0);
    MergingParts(p, q);
    if !Merging(p, q) {
      MergedEnd(p, q, preserve);
      NearWhole(p, preserve);
      NearWhole(q, preserve);
      EvalAppend(p, q, env);
    } else {
      MergedStep(p, q, preserve);
      NearRest(p);
      NearRest(q);
      HeadAbove(p, 0);
      HeadAbove(q, 0);
      EvalHead(p, env);
      EvalHead(q, env);
      if p[0].kind == q[0].kind {
        StopsBoth(p, q);
        MergedEval(p[1..], q[1..], preserve, env);
        var t, r := Term(p[0].kind, Wrap64(p[0].value + q[0].value)), Merged(p[1..], q[1..], preserve);
        EvalFront(t, r, env);
        SumTerm(p[0].value, q[0].value, env(p[0].kind), Eval(r, env), Eval(p[1..], env), Eval(q[1..], env));
      } else if p[0].kind < q[0].kind {
        StopsDrop(p, q);
        MergedEval(p[1..], q, preserve, env);
        var r := Merged(p[1..], q, preserve);
        EvalFront(p[0], r, env);
        SameSymmetric(p[0].value * env(p[0].kind), 0);
        SameSum(p[0].value * env(p[0].kind), p[0].value * env(p[0].kind), Eval(r, env), Eval(p[1..], env) + Eval(q, env));
      } else {
        StopsSwap(p, q);
        StopsSwap(p, q[1..]);
        StopsDrop(q, p);
        MergedEval(p, q[1..], preserve, env);
        var r := Merged(p, q[1..], preserve);
        EvalFront(q[0], r, env);
        SameSymmetric(q[0].value * env(q[0].kind), 0);
        SameSum(q[0].value * env(q[0].kind), q[0].value * env(q[0].kind), Eval(r, env), Eval(p, env) + Eval(q[1..], env));
      }
    }
  }

  // The same for vectors in any order that have no unknown part.
  lemma {:induction false} MergedEvalAny(p: Vec, q: Vec, preserve: bool, env: int -> int)
    requires !Has(p, UNKNOWN) && !Has(q, UNKNOWN) && (preserve || (Near(p) && Near(q)))
    ensures Same(Eval(Merged(p, q, preserve), env), Eval(p, env) + Eval(q, env))
    decreases |p| + |q|
  {
    hide *;
    SameSymmetric(Eval(p, env) + Eval(q, env), 0);
    MergingParts(p, q);
    if !Merging(p, q) {
      MergedEnd(p, q, preserve);
      NearWhole(p, preserve);
      NearWhole(q, preserve);
      EvalAppend(p, q, env);
    } else {
      MergedStep(p, q, preserve);
      NearRest(p);
      NearRest(q);
      HasStep(p, UNKNOWN);
      HasStep(q, UNKNOWN);
      EvalHead(p, env);
      EvalHead(q, env);
      if p[0].kind == q[0].kind {
        MergedEvalAny(p[1..], q[1..], preserve, env);
        var t, r := Term(p[0].kind, Wrap64(p[0].value + q[0].value)), Merged(p[1..], q[1..], preserve);
        EvalFront(t, r, env);
        SumTerm(p[0].value, q[0].value, env(p[0].kind), Eval(r, env), Eval(p[1..], env), Eval(q[1..], env));
      } else if p[0].kind < q[0].kind {
        MergedEvalAny(p[1..], q, preserve, env);
        var r := Merged(p[1..], q, preserve);
        EvalFront(p[0], r, env);
        SameSymmetric(p[0].value * env(p[0].kind), 0);
        SameSum(p[0].value * env(p[0].kind), p[0].value * env(p[0].kind), Eval(r, env), Eval(p[1..], env) + Eval(q, env));
      } else {
        MergedEvalAny(p, q[1..], preserve, env);
        var r := Merged(p, q[1..], preserve);
        EvalFront(q[0], r, env);
        SameSymmetric(q[0].value * env(q[0].kind), 0);
        SameSum(q[0].value * env(q[0].kind), q[0].value * env(q[0].kind), Eval(r, env), Eval(p, env) + Eval(q[1..], env));
      }
    }
  }

  // ----- Scaling -----

  // The vector in a terminated array.
  function Terms(s: seq<Term>): Vec {
    if s == [] || s[0].kind == 0 then [] else [s[0]] + Terms(s[1..])
  }

  // Every term up to the first far one, scaled.
  function Scaled(v: Vec, scalar: Int64): Vec {
    if v == [] || v[0].kind >= FAR then [] else [Term(v[0].kind, Wrap64(scalar * v[0].value))] + Scaled(v[1..], scalar)
  }

  function NearPart(v: Vec): Vec { Rest(v, false) }

  lemma {:induction false} TermsEnd(s: seq<Term>, i: nat)
    requires i < |s| && s[i].kind == 0 && forall k :: 0 <= k < i ==> s[k].kind != 0
    ensures Terms(s) == s[..i]
  {
    if i > 0 {
      TermsEnd(s[1..], i - 1);
      assert s[..i] == [s[0]] + s[1..][..i - 1];
    }
  }

  lemma TermsStep(s: seq<Term>, i: nat)
    requires i < |s|
    ensures Terms(s[i..]) == if s[i].kind == 0 then [] else [s[i]] + Terms(s[i + 1..])
  {
    assert s[i..][1..] == s[i + 1..];
  }

  lemma ScaledStep(t: Term, v: Vec, scalar: Int64, k: int)
    ensures Scaled([t] + v, scalar) == if t.kind >= FAR then [] else [Term(t.kind, Wrap64(scalar * t.value))] + Scaled(v, scalar)
    ensures Has(NearPart([t] + v), k) <==> t.kind < FAR && (t.kind == k || Has(NearPart(v), k))
    ensures Scaled([], scalar) == [] && !Has(NearPart([]), k)
  {
    hide Wrap64;
    assert ([t] + v)[1..] == v;
    var r := NearPart(v);
    HasStep([t] + r, k);
    assert ([t] + r)[1..] == r;
  }

  // A term of that kind among the first p.
  ghost predicate HasBefore(v: Vec, p: nat, kind: int)
    requires p <= |v|
  {
    exists k :: 0 <= k < p && v[k].kind == kind
  }

  // What one turn of the loop keeps: p terms are scaled, the others are as they were.
  ghost predicate Scaling(was: Vec, now: Vec, p: nat, scalar: Int64, base: int) {
    p <= |now| == |was| && now[p..] == was[p..] && (forall k :: 0 <= k < p ==> now[k].kind != 0) &&
    now[..p] + Scaled(Terms(was[p..]), scalar) == Scaled(Terms(was), scalar) &&
    (Has(NearPart(Terms(was)), base) <==> HasBefore(was, p, base) || Has(NearPart(Terms(was[p..])), base))
  }

  lemma ScalingStarts(was: Vec, scalar: Int64, base: int)
    ensures Scaling(was, was, 0, scalar, base) && !HasBefore(was, 0, base)
  {
    NoneBefore(was, base);
    hide Terms, Scaled, NearPart, Has, HasBefore;
    assert was[0..] == was && was[..0] == [];
    assert [] + Scaled(Terms(was), scalar) == Scaled(Terms(was), scalar);
  }

  lemma ScalingStops(was: Vec, now: Vec, after: Vec, p: nat, scalar: Int64, base: int)
    requires Scaling(was, now, p, scalar, base) && p < |was| && (was[p].kind == 0 || was[p].kind >= FAR)
    requires after == now[p := now[p].(kind := 0)]
    ensures Terms(after) == Scaled(Terms(was), scalar)
    ensures Has(NearPart(Terms(was)), base) <==> HasBefore(was, p, base)
  {
    TermsStep(was, p);
    ScaledStep(was[p], Terms(was[p + 1..]), scalar, base);
    TermsEnd(after, p);
    hide Terms, Scaled, NearPart, Has, HasBefore;
    assert after[..p] == now[..p];
    assert now[..p] + [] == now[..p];
  }

  lemma ScaleTurn(was: Vec, now: Vec, after: Vec, p: nat, scalar: Int64, base: int)
    requires Scaling(was, now, p, scalar, base) && p < |was| && was[p].kind != 0 && was[p].kind < FAR
    requires after == now[p := Term(was[p].kind, Wrap64(scalar * was[p].value))]
    ensures Scaling(was, after, p + 1, scalar, base)
    ensures HasBefore(was, p + 1, base) <==> HasBefore(was, p, base) || was[p].kind == base
  {
    TermsStep(was, p);
    ScaledStep(was[p], Terms(was[p + 1..]), scalar, base);
    BeforeStep(was, p, base);
    hide Terms, Scaled, NearPart, Has, HasBefore, Wrap64;
    assert after[p + 1..] == now[p..][1..] == was[p..][1..] == was[p + 1..];
    assert after[..p + 1] == now[..p] + [after[p]];
    Regroup(now[..p], [after[p]], Scaled(Terms(was[p + 1..]), scalar));
  }

  lemma BeforeStep(v: Vec, p: nat, kind: int)
    requires p < |v|
    ensures HasBefore(v, p + 1, kind) <==> HasBefore(v, p, kind) || v[p].kind == kind
  {}

  lemma NoneBefore(v: Vec, kind: int)
    ensures !HasBefore(v, 0, kind)
  {}


  // scalar_mult, in place. The register that the hint proposes as the base, if the hints are
  // to be kept up, loses that standing when it is scaled.
  method ScalarMult(vect: array<Term>, scalar: Int64, makeBase: Option<int>) returns (notBase: bool)
    requires exists i :: 0 <= i < vect.Length && vect[i].kind == 0
    modifies vect
    ensures Terms(vect[..]) == Scaled(old(Terms(vect[..])), scalar)
    ensures notBase <==> makeBase.Some? && Has(NearPart(old(Terms(vect[..]))), makeBase.value)
  {
    hide *;
    ghost var was := vect[..];
    ghost var end :| 0 <= end < |was| && was[end].kind == 0;
    ghost var base := if makeBase.Some? then makeBase.value else 0;
    ScalingStarts(was, scalar, base);
    assert was[0..] == was;
    notBase := false;
    var p := 0;
    while vect[p].kind != 0 && vect[p].kind < FAR
      invariant p <= end < vect.Length == |was| && vect[p..] == was[p..] && Scaling(was, vect[..], p, scalar, base)
      invariant notBase <==> makeBase.Some? && HasBefore(was, p, base)
      decreases vect.Length - p
    {
      assert vect[p] == vect[p..][0] == was[p];
      ghost var now := vect[..];
      vect[p] := Term(vect[p].kind, Wrap64(scalar * vect[p].value));
      ScaleTurn(was, now, vect[..], p, scalar, base);
      if makeBase.Some? && makeBase.value == vect[p].kind { notBase := true; }
      p := p + 1;
    }
    assert vect[p] == vect[p..][0] == was[p];
    ghost var now := vect[..];
    vect[p] := vect[p].(kind := 0);
    ScalingStops(was, now, vect[..], p, scalar, base);
  }

  lemma {:induction false} ScaledKeeps(v: Vec, scalar: Int64)
    requires Sorted(v)
    ensures Sorted(Scaled(v, scalar)) && Near(Scaled(v, scalar))
    ensures forall t <- Scaled(v, scalar) :: exists u <- v :: u.kind == t.kind
    ensures Near(v) && !Has(v, UNKNOWN) ==> !Has(Scaled(v, scalar), UNKNOWN)
  {
    if v != [] && v[0].kind < FAR {
      SortedRest(v);
      ScaledKeeps(v[1..], scalar);
      var t, r := Term(v[0].kind, Wrap64(scalar * v[0].value)), Scaled(v[1..], scalar);
      hide Wrap64;
      SortedFront(t, r);
      assert v[0] in v;
      assert forall x <- [t] + r :: x == t || x in r;
    }
  }

  lemma TermScaled(scalar: Int64, x: Int64, e: int, r: int, rest: int)
    requires Same(r, scalar * rest)
    ensures Same(Wrap64(scalar * x) * e + r, scalar * (x * e + rest))
  {
    WrapSame(scalar * x);
    hide Wrap64;
    SameProduct(Wrap64(scalar * x), scalar * x, e);
    SameSum(Wrap64(scalar * x) * e, scalar * x * e, r, scalar * rest);
    hide Same;
    Spread3(scalar, x, e, rest);
  }

  lemma Spread3(s: int, x: int, e: int, r: int)
    ensures s * x * e + s * r == s * (x * e + r)
  {}

  // A scaled vector stands for the multiple, without the far segment.
  lemma {:induction false} ScaledEval(v: Vec, scalar: Int64, env: int -> int)
    ensures Same(Eval(Scaled(v, scalar), env), scalar * Eval(NearPart(v), env))
  {
    if v != [] && v[0].kind < FAR {
      var t, r := Term(v[0].kind, Wrap64(scalar * v[0].value)), Scaled(v[1..], scalar);
      ScaledEval(v[1..], scalar, env);
      assert Scaled(v, scalar) == [t] + r && NearPart(v) == [v[0]] + NearPart(v[1..]);
      hide Wrap64, Scaled, NearPart;
      EvalFront(t, r, env);
      EvalFront(v[0], NearPart(v[1..]), env);
      hide Eval, Same;
      TermScaled(scalar, v[0].value, env(v[0].kind), Eval(r, env), Eval(NearPart(v[1..]), env));
    }
  }

  // ----- The addition level of the evaluator -----

  // Vectors with no unknown part and no far segment.
  predicate Plain(v: Vec) { Sorted(v) && Near(v) && !Has(v, UNKNOWN) }

  predicate Terminated(s: seq<Term>) { exists i :: 0 <= i < |s| && s[i].kind == 0 }

  // The operands behind the first; the flag of an operand asks for subtraction.
  ghost function Addends(rest: seq<(bool, array<Term>)>): (v: seq<(bool, Vec)>)
    reads set r | r in rest :: r.1
    ensures |v| == |rest|
  {
    seq(|rest|, i requires 0 <= i < |rest| reads set r | r in rest :: r.1 => (rest[i].0, Terms(rest[i].1[..])))
  }

  // The number they add up to.
  function Total(ops: seq<(bool, Vec)>, env: int -> int): int {
    if ops == [] then 0
    else
      var last := ops[|ops| - 1];
      Total(ops[..|ops| - 1], env) + Signed(Eval(last.1, env), last.0)
  }

  predicate KindsFrom(r: Vec, p: Vec, q: Vec) { forall t <- r :: Has(p, t.kind) || Has(q, t.kind) }

  lemma {:induction false} RestKinds(v: Vec, preserve: bool)
    ensures KindsFrom(Rest(v, preserve), v, [])
  {
    if v != [] {
      RestKinds(v[1..], preserve);
      forall k { HasStep(v, k); }
      hide Has;
      assert !Has([], 0);
    }
  }

  lemma {:induction false} MergedKinds(p: Vec, q: Vec, preserve: bool)
    ensures KindsFrom(Merged(p, q, preserve), p, q)
    decreases |p| + |q|
  {
    if !Merging(p, q) {
      RestKinds(p, preserve);
      RestKinds(q, preserve);
      assert forall k :: !Has([], k);
      hide Has, Rest;
    } else {
      MergedKinds(p[1..], q, preserve);
      MergedKinds(p, q[1..], preserve);
      MergedKinds(p[1..], q[1..], preserve);
      forall k ensures (Has(p, k) <==> p[0].kind == k || Has(p[1..], k)) && (Has(q, k) <==> q[0].kind == k || Has(q[1..], k)) {
        HasStep(p, k);
        HasStep(q, k);
      }
      MergedStep(p, q, preserve);
      hide Has, Merged, Wrap64;
    }
  }

  lemma PlainKind(v: Vec, k: int)
    requires Plain(v)
    ensures Has(v, k) ==> k < FAR && k != UNKNOWN
  {}

  lemma PlainParts(p: Vec, q: Vec, preserve: bool)
    requires Plain(p) && Plain(q)
    ensures Sorted(p) && Sorted(q) && Near(p) && Near(q) && !Stops(p, q) && !Disordered(p, q, preserve)
  {}

  // Plain vectors are closed under addition and scaling.
  lemma PlainSum(p: Vec, q: Vec, preserve: bool)
    requires Plain(p) && Plain(q)
    ensures Plain(Merged(p, q, preserve))
  {
    PlainParts(p, q, preserve);
    MergedSorted(p, q, preserve);
    MergedKinds(p, q, preserve);
    var r := Merged(p, q, preserve);
    hide Merged, Stops, Disordered, Sorted;
    forall t <- r ensures t.kind < FAR && t.kind != UNKNOWN {
      PlainKind(p, t.kind);
      PlainKind(q, t.kind);
    }
  }

  lemma PlainScaled(v: Vec, scalar: Int64, env: int -> int)
    requires Plain(v)
    ensures Plain(Scaled(v, scalar)) && Same(Eval(Scaled(v, scalar), env), scalar * Eval(v, env))
  {
    ScaledKeeps(v, scalar);
    ScaledEval(v, scalar, env);
    NearWhole(v, false);
    hide Scaled, Sorted, Near, Same, Rest;
  }

  // The vector that is added for an operand.
  function Addend(f: Vec, minus: bool): Vec { if minus then Scaled(f, -1) else f }

  function Signed(x: int, minus: bool): int { if minus then -x else x }

  lemma SignedIs(x: int, minus: bool)
    ensures Signed(x, minus) == if minus then -1 * x else x
  {}

  lemma PlainAddend(f: Vec, minus: bool, env: int -> int)
    requires Plain(f)
    ensures Plain(Addend(f, minus)) && Same(Eval(Addend(f, minus), env), Signed(Eval(f, env), minus))
  {
    hide *;
    PlainScaled(f, -1, env);
    AddendIs(f, minus);
    SignedIs(Eval(f, env), minus);
    SameSymmetric(Eval(f, env), 0);
  }

  // One operand added or subtracted.
  lemma OperandAdded(e: Vec, f: Vec, minus: bool, total: int, first: int, env: int -> int)
    requires Plain(e) && Plain(f) && Same(Eval(e, env), first + total)
    ensures var r := Sum(e, Addend(f, minus));
            Plain(r) && Same(Eval(r, env), first + (total + Signed(Eval(f, env), minus)))
  {
    hide *;
    PlainAddend(f, minus, env);
    var g := Addend(f, minus);
    PlainParts(e, g, true);
    SumIs(e, g);
    PlainSum(e, g, ReallySimple(e) || ReallySimple(g));
    MergedEval(e, g, ReallySimple(e) || ReallySimple(g), env);
    var x := Signed(Eval(f, env), minus);
    SameSum(Eval(e, env), first + total, Eval(g, env), x);
    SameChain(Eval(Sum(e, g), env), Eval(e, env) + Eval(g, env), first + total + x);
  }

  lemma SumIs(p: Vec, q: Vec)
    ensures Sum(p, q) == Merged(p, q, ReallySimple(p) || ReallySimple(q))
  {}

  lemma SameChain(a: int, b: int, c: int)
    requires Same(a, b) && Same(b, c)
    ensures Same(a, c)
  {}

  lemma TotalStep(ops: seq<(bool, Vec)>, i: nat, env: int -> int)
    requires i < |ops|
    ensures Total(ops[..0], env) == 0
    ensures Total(ops[..i + 1], env) == Total(ops[..i], env) + Signed(Eval(ops[i].1, env), ops[i].0)
  {
    assert ops[..i + 1][..i] == ops[..i];
  }

  // The operands taken one after the other.
  function Folded(first: Vec, ops: seq<(bool, Vec)>): Vec {
    if ops == [] then first
    else
      var last := ops[|ops| - 1];
      Sum(Folded(first, ops[..|ops| - 1]), Addend(last.1, last.0))
  }

  lemma FoldedStep(first: Vec, ops: seq<(bool, Vec)>, i: nat)
    requires i < |ops|
    ensures Folded(first, ops[..0]) == first
    ensures Folded(first, ops[..i + 1]) == Sum(Folded(first, ops[..i]), Addend(ops[i].1, ops[i].0))
  {
    hide Sum, Addend;
    assert ops[..i + 1][..i] == ops[..i];
  }

  // Plain operands give a plain vector that stands for the sum and difference of theirs.
  lemma {:induction false} FoldedEval(first: Vec, ops: seq<(bool, Vec)>, env: int -> int)
    requires Plain(first) && forall op <- ops :: Plain(op.1)
    ensures Plain(Folded(first, ops)) && Same(Eval(Folded(first, ops), env), Eval(first, env) + Total(ops, env))
    decreases |ops|
  {
    hide *;
    assert ops[..0] == [] && ops[..|ops|] == ops;
    TotalNone(env);
    if ops == [] {
      SameSymmetric(Eval(first, env), 0);
      FoldedNone(first);
    } else {
      var i: nat := |ops| - 1;
      assert ops[i] in ops && forall op <- ops[..i] :: op in ops;
      FoldedEval(first, ops[..i], env);
      FoldedStep(first, ops, i);
      TotalStep(ops, i, env);
      OperandAdded(Folded(first, ops[..i]), ops[i].1, ops[i].0, Total(ops[..i], env), Eval(first, env), env);
    }
  }

  lemma FoldedNone(first: Vec)
    ensures Folded(first, []) == first
  {}

  // expr4: the operands are added and subtracted from left to right.
  method Expr4(first: Vec, rest: seq<(bool, array<Term>)>) returns (e: Vec)
    requires forall r <- rest :: Terminated(r.1[..])
    requires forall i, j :: 0 <= i < j < |rest| ==> rest[i].1 != rest[j].1
    modifies set r | r in rest :: r.1
    ensures e == Folded(first, old(Addends(rest)))
  {
    hide *;
    e := first;
    ghost var ops := Addends(rest);
    AddendsAre(rest);
    FoldedNone(first);
    assert ops[..0] == [];
    for i := 0 to |rest|
      invariant e == Folded(first, ops[..i])
      invariant forall k :: i <= k < |rest| ==> Terminated(rest[k].1[..]) && Terms(rest[k].1[..]) == ops[k].1
    {
      var (minus, f) := rest[i];
      FoldedStep(first, ops, i);
      if minus {
        FindsEnd(f[..]);
        var notBase := ScalarMult(f, -1, None);
      }
      AddendIs(ops[i].1, minus);
      e := AddVectors(e, Terms(f[..]));
    }
    assert ops[..|rest|] == ops;
  }

  lemma AddendIs(f: Vec, minus: bool)
    ensures Addend(f, minus) == if minus then Scaled(f, -1) else f
  {}

  lemma TotalNone(env: int -> int)
    ensures Total([], env) == 0
  {}

  lemma FindsEnd(s: seq<Term>)
    requires Terminated(s)
    ensures exists i :: 0 <= i < |s| && s[i].kind == 0
  {}

  lemma AddendsAre(rest: seq<(bool, array<Term>)>)
    ensures forall i :: 0 <= i < |rest| ==> Addends(rest)[i] == (rest[i].0, Terms(rest[i].1[..]))
  {
    hide Terms;
  }

  // ----- What add_vectors promises for the vectors the evaluator builds -----

  // The significant terms of a vector, in the order of the vector.
  lemma {:induction false} SignificantIn(v: Vec)
    ensures forall t: Term :: t in Significant(v) <==> t in v && t.value != 0
    ensures Sorted(v) ==> Sorted(Significant(v))
  {
    if v != [] {
      SignificantIn(v[1..]);
      var s := Significant(v[1..]);
      assert forall t: Term :: t in v <==> t == v[0] || t in v[1..];
      SortedFront(v[0], v[1..]);
      SortedFront(v[0], s);
      assert [v[0]] + v[1..] == v && [] + s == s;
      hide Sorted, Significant;
      assert forall t: Term :: t in [v[0]] + s <==> t == v[0] || t in s;
    }
  }

  lemma SortedPair(s: Vec)
    requires Sorted(s)
    ensures forall i, j :: 0 <= i < j < |s| ==> s[i].kind < s[j].kind
    ensures forall i :: 0 <= i < |s| ==> s[i] in s
  {}

  // In a sorted vector the scan finds what there is.
  lemma ReallySimpleIs(v: Vec)
    requires Sorted(v)
    ensures ReallySimple(v) <==> forall t <- v :: t.value != 0 ==> t.kind == SIMPLE
  {
    SignificantIn(v);
    var s := Significant(v);
    SortedPair(s);
    assert (forall t <- v :: t.value != 0 ==> t.kind == SIMPLE) <==> forall t <- s :: t.kind == SIMPLE;
    hide Significant, Sorted;
    OneSimple(s);
  }

  lemma OneSimple(s: Vec)
    requires (forall i, j :: 0 <= i < j < |s| ==> s[i].kind < s[j].kind) && forall i :: 0 <= i < |s| ==> s[i] in s
    ensures (forall t <- s :: t.kind == SIMPLE) <==> s == [] || (|s| == 1 && s[0].kind == SIMPLE)
  {
    if |s| > 1 { assert s[0].kind < s[1].kind; }
  }

  lemma ReallySimpleNear(v: Vec)
    requires Valid(v) && ReallySimple(v)
    ensures Near(v)
  {
    ReallySimpleIs(v);
    hide ReallySimple;
  }

  // Every kind of the sum has the wrapped sum of the multiples, save behind an unknown term
  // that stops the merge and for far segments that are not kept; and the sum is in order save
  // where a kept far segment of the first vector is met before the end of the second.
  lemma SumExact(p: Vec, q: Vec, k: int)
    requires Valid(p) && Valid(q)
    ensures var preserve := ReallySimple(p) || ReallySimple(q);
            Coef(Sum(p, q), k) == Expected(p, q, preserve, k) && (Sorted(Sum(p, q)) <==> !Disordered(p, q, preserve))
  {
    var preserve := ReallySimple(p) || ReallySimple(q);
    if ReallySimple(p) { ReallySimpleNear(p); }
    if ReallySimple(q) { ReallySimpleNear(q); }
    SumIs(p, q);
    assert Sorted(p) && Sorted(q);
    hide *;
    MergedCoef(p, q, preserve, k);
    MergedSorted(p, q, preserve);
  }

  // ----- Classification -----

  // What is left behind an optional term of the given kind.
  function Behind(s: Vec, k: int): Vec { if s != [] && s[0].kind == k then s[1..] else s }

  predicate Simple(v: Vec) {
    var s := Significant(v);
    s == [] || (s[0].kind == SIMPLE && (|s| == 1 || s[1].kind >= FAR))
  }

  // A number first if there is one, then a WRT part, then a segment base taken once.
  predicate Reloc(v: Vec) {
    var s := Significant(v);
    s == [] ||
    (s[0].kind >= SIMPLE && var b := Behind(Behind(s, SIMPLE), WRT); b == [] || (|b| == 1 && b[0].value == 1))
  }

  function ValueOf(v: Vec): Int64 {
    var s := Significant(v);
    if s != [] && s[0].kind == SIMPLE then s[0].value else 0
  }

  // The significant terms that are no WRT part.
  function Parts(v: Vec): Vec {
    if v == [] then [] else (if v[0].value != 0 && v[0].kind != WRT then [v[0]] else []) + Parts(v[1..])
  }

  function SegOf(v: Vec): int {
    var s := Behind(Parts(v), SIMPLE);
    if s == [] then NO_SEG else s[0].kind - SEGBASE
  }

  // Whether the first kind that is not below k is k.
  predicate Reaches(v: Vec, k: int) {
    v != [] && if v[0].kind < k then Reaches(v[1..], k) else v[0].kind == k
  }

  function WrtOf(v: Vec): int {
    if v == [] then NO_SEG else if v[0].kind < WRT then WrtOf(v[1..]) else if v[0].kind == WRT then v[0].value else NO_SEG
  }

  // is_simple.
  method IsSimple(v: Vec) returns (r: bool)
    ensures r <==> Simple(v)
  {
    hide Significant;
    assert v[0..] == v;
    var i := SkipZeros(v, 0);
    if i == |v| { return true; }
    if v[i].kind != SIMPLE { return false; }
    var j := SkipZeros(v, i + 1);
    return j == |v| || v[j].kind >= FAR;
  }

  // is_unknown.
  method IsUnknown(v: Vec) returns (r: bool)
    ensures r <==> Reaches(v, UNKNOWN)
  {
    var i := 0;
    assert v[0..] == v;
    while i < |v| && v[i].kind < UNKNOWN
      invariant i <= |v| && (Reaches(v, UNKNOWN) <==> Reaches(v[i..], UNKNOWN))
    {
      assert v[i..][1..] == v[i + 1..];
      i := i + 1;
    }
    r := i < |v| && v[i].kind == UNKNOWN;
  }

  // is_reloc.
  method IsReloc(v: Vec) returns (r: bool)
    ensures r <==> Reloc(v)
  {
    hide Significant;
    assert v[0..] == v;
    var i := SkipZeros(v, 0);
    if i == |v| { return true; }
    if v[i].kind < SIMPLE { return false; }
    if v[i].kind == SIMPLE {
      i := SkipZeros(v, i + 1);
      if i == |v| { return true; }
    }
    if v[i].kind == WRT {
      i := SkipZeros(v, i + 1);
      if i == |v| { return true; }
    }
    if v[i].value != 0 && v[i].value != 1 { return false; }
    var j := SkipZeros(v, i + 1);
    return j == |v|;
  }

  // reloc_value.
  method RelocValue(v: Vec) returns (r: Int64)
    ensures r == ValueOf(v)
  {
    hide Significant;
    assert v[0..] == v;
    var i := SkipZeros(v, 0);
    r := if i < |v| && v[i].kind == SIMPLE then v[i].value else 0;
  }

  lemma PartsStep(v: Vec, i: nat)
    requires i < |v|
    ensures Parts(v[i..]) == (if v[i].value != 0 && v[i].kind != WRT then [v[i]] else []) + Parts(v[i + 1..])
    ensures Parts([]) == []
  {
    assert v[i..][1..] == v[i + 1..];
  }

  // The first term from i on that is significant and no WRT term.
  method SkipWrt(v: Vec, i: nat) returns (j: nat)
    requires i <= |v|
    ensures i <= j <= |v| && Parts(v[i..]) == if j == |v| then [] else [v[j]] + Parts(v[j + 1..])
  {
    j := i;
    while j < |v| && (v[j].kind == WRT || v[j].value == 0)
      invariant i <= j <= |v| && Parts(v[i..]) == Parts(v[j..])
    {
      PartsStep(v, j);
      j := j + 1;
    }
    if j < |v| { PartsStep(v, j); } else { assert v[j..] == []; }
  }

  // reloc_seg.
  method RelocSeg(v: Vec) returns (r: int)
    ensures r == SegOf(v)
  {
    hide Parts;
    assert v[0..] == v;
    var i := SkipWrt(v, 0);
    if i < |v| && v[i].kind == SIMPLE { i := SkipWrt(v, i + 1); }
    r := if i == |v| then NO_SEG else v[i].kind - SEGBASE;
  }

  // reloc_wrt.
  method RelocWrt(v: Vec) returns (r: int)
    ensures r == WrtOf(v)
  {
    var i := 0;
    assert v[0..] == v;
    while i < |v| && v[i].kind < WRT
      invariant i <= |v| && WrtOf(v) == WrtOf(v[i..])
    {
      assert v[i..][1..] == v[i + 1..];
      i := i + 1;
    }
    r := if i < |v| && v[i].kind == WRT then v[i].value else NO_SEG;
  }

  // ----- What the classification says of a sorted vector -----

  // A number, at most one segment base, taken once, and perhaps a WRT segment.
  predicate Relocatable(v: Vec) {
    (forall t <- v :: t.value != 0 ==> t.kind >= SIMPLE && (t.kind > WRT ==> t.value == 1)) &&
    forall t, u :: t in v && u in v && t.value != 0 && u.value != 0 && t.kind > WRT && u.kind > WRT ==> t == u
  }

  lemma {:induction false} SignificantCoef(v: Vec, k: int)
    requires Sorted(v)
    ensures Coef(Significant(v), k) == Coef(v, k)
  {
    if v != [] {
      SortedRest(v);
      SignificantCoef(v[1..], k);
      CoefFront(v[0], Significant(v[1..]), k);
      if v[0].kind == k {
        CoefAbsent(v[1..], k);
      }
    }
  }

  lemma RelocatableSame(v: Vec)
    requires Sorted(v)
    ensures Relocatable(v) <==> Relocatable(Significant(v))
  {
    SignificantIn(v);
    hide Significant, Sorted;
  }

  lemma RelocIs(v: Vec)
    requires Sorted(v)
    ensures Reloc(v) <==> Relocatable(v)
  {
    RelocatableSame(v);
    SignificantIn(v);
    var s := Significant(v);
    SortedPair(s);
    assert forall i :: 0 <= i < |s| ==> s[i] in s && s[i].value != 0;
    hide Significant, Sorted, Relocatable, Behind;
    if s != [] && s[0].kind >= SIMPLE {
      var b := Behind(Behind(s, SIMPLE), WRT);
      BehindRest(s);
      if b == [] || (|b| == 1 && b[0].value == 1) { RestReloc(s, b); }
      if Relocatable(s) { RelocRest(s, b); }
    } else if s != [] && Relocatable(s) {
      FirstReloc(s);
    } else if s == [] {
      NoneReloc();
    }
  }

  lemma NoneReloc()
    ensures Relocatable([])
  {}

  lemma FirstReloc(s: Vec)
    requires s != [] && s[0].value != 0 && Relocatable(s)
    ensures s[0].kind >= SIMPLE
  {
    assert s[0] in s;
  }

  // b is what is left of s behind a number and a WRT part.
  predicate IsRest(s: Vec, b: Vec) {
    |b| <= |s| && b == s[|s| - |b|..] && (forall i :: 0 <= i < |s| - |b| ==> SIMPLE <= s[i].kind <= WRT) &&
    forall i :: |s| - |b| <= i < |s| ==> s[i].kind > WRT
  }

  lemma BehindRest(s: Vec)
    requires (forall i, j :: 0 <= i < j < |s| ==> s[i].kind < s[j].kind) && s != [] && s[0].kind >= SIMPLE
    ensures IsRest(s, Behind(Behind(s, SIMPLE), WRT))
  {}

  lemma RestReloc(s: Vec, b: Vec)
    requires IsRest(s, b) && |b| <= 1 && (|b| == 1 ==> b[0].value == 1)
    ensures Relocatable(s)
  {
    if |b| == 1 { assert b[0] == s[|s| - 1]; }
    forall t <- s ensures t.kind >= SIMPLE && (t.kind > WRT ==> b != [] && t == b[0]) {
      var i :| 0 <= i < |s| && s[i] == t;
    }
  }

  lemma RelocRest(s: Vec, b: Vec)
    requires IsRest(s, b) && Relocatable(s) && forall i :: 0 <= i < |s| ==> s[i].value != 0
    requires forall i, j :: 0 <= i < j < |s| ==> s[i].kind < s[j].kind
    ensures b == [] || (|b| == 1 && b[0].value == 1)
  {
    if b != [] {
      var n: nat := |s| - |b|;
      assert b[0] == s[n] && s[n] in s;
      assert s[|s| - 1] in s;
    }
  }

  // The scalar part of a sorted vector in which no register comes first.
  lemma ValueIs(v: Vec)
    requires Sorted(v)
    ensures ValueOf(v) == if exists t <- v :: t.value != 0 && t.kind < SIMPLE then 0 else Coef(v, SIMPLE)
  {
    SignificantIn(v);
    SignificantCoef(v, SIMPLE);
    var s := Significant(v);
    SortedPair(s);
    if s == [] || s[0].kind > SIMPLE { CoefAbsent(s, SIMPLE) by { assert forall t <- s :: t.kind != SIMPLE; } }
    hide Significant, Sorted;
    if s != [] { assert s[0] in s; }
  }

  // r is the segment of a relocatable vector.
  predicate IsSegment(v: Vec, r: int) {
    if r == NO_SEG then forall t <- v :: t.kind > WRT ==> t.value == 0
    else r >= 0 && Coef(v, SEGBASE + r) == 1
  }
  function Rebuilt(value: Int64, seg: int): Vec {
    [Term(SIMPLE, value)] + if seg == NO_SEG then [] else [Term(SEGBASE + seg, 1)]
  }

  // A relocatable vector with no WRT part is its value and its segment: nothing else is in it.
  lemma RelocRebuilds(v: Vec, seg: int, k: int)
    requires Sorted(v) && Relocatable(v) && Coef(v, WRT) == 0 && IsSegment(v, seg)
    ensures Coef(v, k) == Coef(Rebuilt(Coef(v, SIMPLE), seg), k)
    ensures !(exists t <- v :: t.value != 0 && t.kind < SIMPLE)
  {
    RebuiltCoef(Coef(v, SIMPLE), seg, k);
    if k != SIMPLE && k != WRT && k != SEGBASE + seg && Has(v, k) {
      OtherCoef(v, seg, k);
    }
    AbsentCoef(v, k);
    hide Coef;
  }

  lemma RebuiltCoef(value: Int64, seg: int, k: int)
    requires seg == NO_SEG || seg >= 0
    ensures Coef(Rebuilt(value, seg), k) ==
              if k == SIMPLE then value else if seg != NO_SEG && k == SEGBASE + seg then 1 else 0
  {
    CoefFront(Term(SIMPLE, value), if seg == NO_SEG then [] else [Term(SEGBASE + seg, 1)], k);
    CoefFront(Term(SEGBASE + seg, 1), [], k);
  }

  lemma OtherCoef(v: Vec, seg: int, k: int)
    requires Sorted(v) && Relocatable(v) && IsSegment(v, seg)
    requires k != SIMPLE && k != WRT && k != SEGBASE + seg && Has(v, k)
    ensures Coef(v, k) == 0
  {
    var i :| 0 <= i < |v| && v[i].kind == k;
    assert v[i] in v;
    CoefAt(v, i);
    if k > WRT && seg != NO_SEG {
      AbsentCoef(v, SEGBASE + seg);
      var j :| 0 <= j < |v| && v[j].kind == SEGBASE + seg;
      CoefAt(v, j);
      hide Coef;
      assert v[j] in v && v[j].value != 0 && v[j].kind > WRT;
    }
  }

  lemma {:induction false} PartsIn(v: Vec)
    ensures forall t: Term :: t in Parts(v) <==> t in v && t.value != 0 && t.kind != WRT
    ensures Sorted(v) ==> Sorted(Parts(v))
  {
    if v != [] {
      PartsIn(v[1..]);
      var s := Parts(v[1..]);
      assert forall t: Term :: t in v <==> t == v[0] || t in v[1..];
      SortedFront(v[0], v[1..]);
      SortedFront(v[0], s);
      assert [v[0]] + v[1..] == v && [] + s == s;
      hide Sorted, Parts;
      assert forall t: Term :: t in [v[0]] + s <==> t == v[0] || t in s;
    }
  }

  lemma BehindNumber(s: Vec)
    requires (forall i, j :: 0 <= i < j < |s| ==> s[i].kind < s[j].kind) && forall t <- s :: t.kind >= SIMPLE && t.kind != WRT
    ensures var b := Behind(s, SIMPLE);
            if b == [] then forall t <- s :: t.kind == SIMPLE else b[0] in s && b[0].kind > WRT
  {
    var b := Behind(s, SIMPLE);
    if b != [] {
      assert b[0] == s[|s| - |b|];
    }
  }

  lemma SegIs(v: Vec)
    requires Sorted(v) && Relocatable(v)
    ensures IsSegment(v, SegOf(v))
  {
    PartsIn(v);
    var s := Parts(v);
    SortedPair(s);
    assert forall t <- s :: t.kind >= SIMPLE && t.kind != WRT;
    hide Parts, Sorted, Relocatable, Coef;
    BehindNumber(s);
    hide Behind;
    if Behind(s, SIMPLE) != [] {
      var b := Behind(s, SIMPLE)[0];
      TakenOnce(v, b);
      SegCoef(v, b);
    }
  }

  lemma TakenOnce(v: Vec, t: Term)
    requires Relocatable(v) && t in v && t.value != 0 && t.kind > WRT
    ensures t.value == 1
  {}

  lemma SegCoef(v: Vec, b: Term)
    requires Sorted(v) && b in v
    ensures Coef(v, b.kind) == b.value
  {
    var i :| 0 <= i < |v| && v[i] == b;
    CoefAt(v, i);
  }

  lemma {:induction false} UnknownIs(v: Vec, k: int)
    requires Sorted(v)
    ensures Reaches(v, k) <==> Has(v, k)
  {
    if v != [] {
      SortedRest(v);
      HasStep(v, k);
      if v[0].kind < k { UnknownIs(v[1..], k); }
    }
  }

  lemma {:induction false} WrtIs(v: Vec)
    requires Sorted(v)
    ensures WrtOf(v) == if Has(v, WRT) then Coef(v, WRT) else NO_SEG
  {
    if v != [] {
      SortedRest(v);
      HasStep(v, WRT);
      if v[0].kind < WRT { WrtIs(v[1..]); }
    }
  }

  lemma SimpleIs(v: Vec)
    requires Sorted(v)
    ensures Simple(v) <==> (forall t <- v :: t.value != 0 ==> t.kind == SIMPLE) ||
                           (Coef(v, SIMPLE) != 0 && forall t <- v :: t.value != 0 ==> t.kind == SIMPLE || t.kind >= FAR)
  {
    SignificantIn(v);
    SignificantCoef(v, SIMPLE);
    var s := Significant(v);
    SortedPair(s);
    assert forall i :: 0 <= i < |s| ==> s[i] in s && s[i].value != 0;
    if s != [] && s[0].kind == SIMPLE { assert Coef(s, SIMPLE) == s[0].value; }
    if s != [] && s[0].kind > SIMPLE { CoefAbsent(s, SIMPLE); }
    hide Significant, Sorted, Coef;
    SimpleParts(s);
  }

  lemma SimpleParts(s: Vec)
    requires (forall i, j :: 0 <= i < j < |s| ==> s[i].kind < s[j].kind) && forall i :: 0 <= i < |s| ==> s[i] in s
    ensures s != [] && s[0].kind == SIMPLE && (|s| == 1 || s[1].kind >= FAR) ==> forall t <- s :: t.kind == SIMPLE || t.kind >= FAR
    ensures s != [] && (forall t <- s :: t.kind == SIMPLE) ==> |s| == 1
    ensures s != [] && s[0].kind == SIMPLE && (forall t <- s :: t.kind == SIMPLE || t.kind >= FAR) ==> |s| == 1 || s[1].kind >= FAR
  {
    if |s| > 1 { assert s[0].kind < s[1].kind && s[1] in s; }
  }

  // A far segment alone plus a number: the sum stands for the right number, but it is out of
  // order, so that it no longer counts as a number and its scalar part is read as zero. Added
  // the other way round the same operands keep both.
  lemma ScalarLost(env: int -> int)
    ensures var p, q := [Term(FAR, 1)], [Term(SIMPLE, 5)];
            Valid(p) && Valid(q) && Same(Eval(Sum(p, q), env), Eval(p, env) + Eval(q, env)) &&
            !Sorted(Sum(p, q)) && ValueOf(Sum(p, q)) == 0 && !Simple(Sum(p, q)) &&
            Sorted(Sum(q, p)) && ValueOf(Sum(q, p)) == 5 && Simple(Sum(q, p))
  {
    var p, q := [Term(FAR, 1)], [Term(SIMPLE, 5)];
    FarAlone(p, q);
    OneTerm(q[0]);
    assert !Has(p, UNKNOWN) && !Has(q, UNKNOWN) && ReallySimple(q);
    MergedEvalAny(p, q, true, env);
    SumIs(p, q);
    hide Merged, Eval, Same, Sum;
    assert Sum(p, q)[0] == p[0] && Sum(p, q)[1] == q[0];
    TwoTerms(p[0], q[0]);
    TwoTerms(q[0], p[0]);
  }

  lemma FarAlone(p: Vec, q: Vec)
    requires p == [Term(FAR, 1)] && q == [Term(SIMPLE, 5)]
    ensures Sum(p, q) == [p[0], q[0]] && Sum(q, p) == [q[0], p[0]]
  {
    OneTerm(q[0]);
    assert p[1..] == [] && q[1..] == [];
    assert ReallySimple(q);
    assert Rest(p, true) == p && Rest(q, true) == q;
  }

  lemma OneTerm(t: Term)
    requires t.value != 0
    ensures Significant([t]) == [t]
  {
    assert [t][1..] == [];
    assert Significant([t]) == [t] + Significant([]);
  }

  lemma TwoTerms(t: Term, u: Term)
    requires t.value != 0 && u.value != 0
    ensures Significant([t, u]) == [t, u]
  {
    OneTerm(u);
    assert [t, u][1..] == [u];
    assert Significant([t, u]) == [t] + Significant([u]);
  }
}
