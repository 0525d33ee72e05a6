/** The binary decision tree meant to replace the linear first-match chain of the decoder
    (codegen/Partitioner.py). */
module Partitioner {
  import opened Bits
  import opened Options

  datatype Element = Element(identifier: string, bitmask: nat, bitvalue: nat)

  predicate Matches(e: Element, opcode: nat) {
    And(opcode, e.bitmask) == e.bitvalue
  }

  /** The linear chain: the first element, in list order, that matches. */
  function FirstMatch(es: seq<Element>, opcode: nat): Option<Element> {
    if es == [] then None
    else if Matches(es[0], opcode) then Some(es[0])
    else FirstMatch(es[1..], opcode)
  }

  /** The elements whose value is zero (or is not) under the mask, in list order. */
  function Select(es: seq<Element>, mask: nat, zero: bool): seq<Element> {
    if es == [] then []
    else (if (And(es[0].bitvalue, mask) == 0) == zero then [es[0]] else []) + Select(es[1..], mask, zero)
  }

  /** The mask shared by all elements. */
  function CommonMask(es: seq<Element>): nat
    requires es != []
  {
    if |es| == 1 then es[0].bitmask else And(es[0].bitmask, CommonMask(es[1..]))
  }

  lemma {:induction false} CommonMaskBit(es: seq<Element>, i: nat)
    requires es != []
    ensures Bit(CommonMask(es), i) <==> forall e :: e in es ==> Bit(e.bitmask, i)
  {
    if |es| > 1 {
      AndBit(es[0].bitmask, CommonMask(es[1..]), i);
      CommonMaskBit(es[1..], i);
      assert forall e :: e in es <==> e == es[0] || e in es[1..];
    }
  }

  // ----- candidate criteria

  /** The single-bit masks of a value, lowest bit first; the value starts at bit `bitno`. */
  function IterBits(value: nat, bitno: nat): seq<nat>
    decreases value
  {
    if value == 0 then []
    else (if value % 2 == 1 then [Pow2(bitno)] else []) + IterBits(value / 2, bitno + 1)
  }

  /** The sums of the k-element combinations, in the order `itertools.combinations` yields them. */
  function CombinationSums(values: seq<nat>, k: nat): seq<nat> {
    if k == 0 then [0]
    else if values == [] then []
    else AddToAll(values[0], CombinationSums(values[1..], k - 1)) + CombinationSums(values[1..], k)
  }

  /** The sums of all combinations of lo to hi-1 values, fewest first. */
  function SumsOfSizes(values: seq<nat>, lo: nat, hi: nat): seq<nat>
    decreases hi - lo
  {
    if lo >= hi then [] else CombinationSums(values, lo) + SumsOfSizes(values, lo + 1, hi)
  }

  function Candidates(common: nat): seq<nat> {
    SumsOfSizes(IterBits(common, 0), 1, |IterBits(common, 0)|)
  }

  function PopCount(x: nat): nat {
    if x == 0 then 0 else BitValue(x % 2 == 1) + PopCount(x / 2)
  }

  lemma WithinHalf(s: nat, v: nat)
    ensures Within(s, v) <==> (s % 2 == 1 ==> v % 2 == 1) && Within(s / 2, v / 2)
  {
    if Within(s, v) {
      assert Bit(s, 0) ==> Bit(v, 0);
      forall i: nat | Bit(s / 2, i) ensures Bit(v / 2, i) { assert Bit(s, i + 1); assert Bit(v, i + 1); }
    }
    if (s % 2 == 1 ==> v % 2 == 1) && Within(s / 2, v / 2) {
      forall i: nat | Bit(s, i) ensures Bit(v, i) {
        if i > 0 { assert Bit(s / 2, i - 1); }
      }
    }
  }

  lemma ZeroWithin(v: nat)
    ensures Within(0, v) && PopCount(0) == 0
  {
    forall i: nat ensures Bit(0, i) ==> Bit(v, i) { ZeroBit(i); }
  }

  lemma {:induction false} WithinZero(s: nat)
    requires Within(s, 0)
    ensures s == 0
  {
    WithinHalf(s, 0);
    if s != 0 { WithinZero(s / 2); }
  }

  lemma {:induction false} PopCountWithin(s: nat, v: nat)
    requires Within(s, v)
    ensures PopCount(s) <= PopCount(v)
    ensures PopCount(s) == PopCount(v) ==> s == v
    ensures PopCount(s) == 0 <==> s == 0
    decreases s + v
  {
    WithinHalf(s, v);
    if v == 0 { WithinZero(s); } else { PopCountWithin(s / 2, v / 2); PopCountSelf(s); }
  }

  lemma {:induction false} PopCountSelf(s: nat)
    ensures PopCount(s) == 0 <==> s == 0
  {
    if s != 0 { PopCountSelf(s / 2); }
  }

  lemma {:induction false} IterBitsLength(v: nat, b: nat)
    ensures |IterBits(v, b)| == PopCount(v)
  {
    if v != 0 { IterBitsLength(v / 2, b + 1); }
  }

  /** A k-combination sum either uses the first value or does not. */
  lemma {:induction false} CombinationUsesFirst(p: nat, rest: seq<nat>, k: nat, m: nat)
    requires k > 0
    ensures m in CombinationSums([p] + rest, k) <==>
      (m >= p && m - p in CombinationSums(rest, k - 1)) || m in CombinationSums(rest, k)
  {
    var all := [p] + rest;
    assert all != [] && all[0] == p && all[1..] == rest;
    AddToAllMember(p, CombinationSums(rest, k - 1), m);
    assert CombinationSums(all, k) == AddToAll(p, CombinationSums(rest, k - 1)) + CombinationSums(rest, k);
  }

  function BitTimes(low: bool, b: nat): nat {
    if low then Pow2(b) else 0
  }

  lemma {:induction false} ShlDouble(s: nat, b: nat)
    ensures Shl(s, b) == BitTimes(s % 2 == 1, b) + Shl(s / 2, b + 1)
  {
    if b > 0 { ShlDouble(s, b - 1); }
  }

  lemma {:induction false} ShlZero(b: nat)
    ensures Shl(0, b) == 0
  {
    if b > 0 { ShlZero(b - 1); }
  }

  lemma NoCombinations(values: seq<nat>, k: nat)
    ensures k == 0 ==> CombinationSums(values, k) == [0]
    ensures k != 0 && values == [] ==> CombinationSums(values, k) == []
  {
  }

  lemma IterBitsStep(v: nat, b: nat)
    ensures v == 0 ==> IterBits(v, b) == []
    ensures v % 2 == 1 ==> IterBits(v, b) == [Pow2(b)] + IterBits(v / 2, b + 1)
    ensures v % 2 == 0 ==> IterBits(v, b) == IterBits(v / 2, b + 1)
  {
  }

  lemma PopCountDouble(half: nat)
    ensures PopCount(2 * half) == PopCount(half) && PopCount(2 * half + 1) == PopCount(half) + 1
  {
    assert (2 * half + 1) / 2 == half;
  }

  /** A submask of v with k bits is, moved up by b, among the k-combination sums of v's bits. */
  lemma {:induction false} SubmaskIsSum(v: nat, b: nat, k: nat, s: nat)
    requires Within(s, v) && PopCount(s) == k
    ensures Shl(s, b) in CombinationSums(IterBits(v, b), k)
    decreases v
  {
    hide *;
    PopCountSelf(s);
    if k == 0 {
      ShlZero(b);
      NoCombinations(IterBits(v, b), 0);
    } else if v == 0 {
      WithinZero(s);
    } else {
      WithinHalf(s, v);
      PopCountStep(s);
      var low := s % 2 == 1;
      SubmaskIsSum(v / 2, b + 1, k - BitValue(low), s / 2);
      ShlDouble(s, b);
      SumWithLowBit(v, b, k, Shl(s / 2, b + 1), low);
    }
  }

  lemma PopCountStep(s: nat)
    ensures PopCount(s) == PopCount(s / 2) + BitValue(s % 2 == 1) && BitValue(s % 2 == 1) <= PopCount(s)
  {
  }

  lemma SumWithLowBit(v: nat, b: nat, k: nat, m: nat, low: bool)
    requires k > 0 && (low ==> v % 2 == 1)
    requires m in CombinationSums(IterBits(v / 2, b + 1), k - BitValue(low))
    ensures BitTimes(low, b) + m in CombinationSums(IterBits(v, b), k)
  {
    hide IterBits, CombinationSums;
    IterBitsStep(v, b);
    if v % 2 == 1 { CombinationUsesFirst(Pow2(b), IterBits(v / 2, b + 1), k, BitTimes(low, b) + m); }
  }

  /** Every k-combination sum of v's bits is a submask of v with k bits, moved up by b. */
  lemma {:induction false} SumIsSubmask(v: nat, b: nat, k: nat, m: nat) returns (s: nat)
    requires m in CombinationSums(IterBits(v, b), k)
    ensures Within(s, v) && PopCount(s) == k && m == Shl(s, b)
    decreases v
  {
    hide *;
    if k == 0 {
      NoCombinations(IterBits(v, b), k);
      s := 0;
      ShlZero(b);
      ZeroWithin(v);
    } else {
      var low := SumUsesLowBit(v, b, k, m);
      var half := SumIsSubmask(v / 2, b + 1, k - BitValue(low), m - BitTimes(low, b));
      s := 2 * half + BitValue(low);
      AppendLowBit(half, low, v, b);
    }
  }

  lemma SumUsesLowBit(v: nat, b: nat, k: nat, m: nat) returns (low: bool)
    requires k > 0 && m in CombinationSums(IterBits(v, b), k)
    ensures v != 0 && (low ==> v % 2 == 1) && BitTimes(low, b) <= m && BitValue(low) <= k
    ensures m - BitTimes(low, b) in CombinationSums(IterBits(v / 2, b + 1), k - BitValue(low))
  {
    hide IterBits, CombinationSums;
    IterBitsStep(v, b);
    NoCombinations(IterBits(v, b), k);
    var rest := IterBits(v / 2, b + 1);
    low := v % 2 == 1 && m >= Pow2(b) && m - Pow2(b) in CombinationSums(rest, k - 1);
    if v % 2 == 1 { CombinationUsesFirst(Pow2(b), rest, k, m); }
  }

  lemma AppendLowBit(half: nat, low: bool, v: nat, b: nat)
    requires Within(half, v / 2) && (low ==> v % 2 == 1)
    ensures Within(2 * half + BitValue(low), v)
    ensures PopCount(2 * half + BitValue(low)) == PopCount(half) + BitValue(low)
    ensures Shl(2 * half + BitValue(low), b) == BitTimes(low, b) + Shl(half, b + 1)
  {
    var s := 2 * half + BitValue(low);
    assert s / 2 == half && (s % 2 == 1 <==> low);
    WithinHalf(s, v);
    PopCountDouble(half);
    ShlDouble(s, b);
  }

  lemma {:induction false} SumOfSize(values: seq<nat>, lo: nat, hi: nat, k: nat, m: nat)
    requires lo <= k < hi && m in CombinationSums(values, k)
    ensures m in SumsOfSizes(values, lo, hi)
    decreases hi - lo
  {
    hide CombinationSums;
    if lo < k { SumOfSize(values, lo + 1, hi, k, m); }
  }

  lemma {:induction false} SizeOfSum(values: seq<nat>, lo: nat, hi: nat, m: nat) returns (k: nat)
    requires m in SumsOfSizes(values, lo, hi)
    ensures lo <= k < hi && m in CombinationSums(values, k)
    decreases hi - lo
  {
    hide CombinationSums;
    if m in CombinationSums(values, lo) { k := lo; } else { k := SizeOfSum(values, lo + 1, hi, m); }
  }

  /** The search tries exactly the proper, non-empty submasks of the common mask. */
  lemma CandidatesAreProperSubmasks(common: nat, m: nat)
    ensures m in Candidates(common) <==> Within(m, common) && m != 0 && m != common
  {
    hide IterBits, SumsOfSizes, CombinationSums, Within, PopCount;
    var bits := IterBits(common, 0);
    IterBitsLength(common, 0);
    if m in Candidates(common) {
      var k := SizeOfSum(bits, 1, |bits|, m);
      var s := SumIsSubmask(common, 0, k, m);
      PopCountWithin(s, common);
      assert Shl(s, 0) == s;
    }
    if Within(m, common) && m != 0 && m != common {
      PopCountWithin(m, common);
      SubmaskIsSum(common, 0, PopCount(m), m);
      assert Shl(m, 0) == m;
      SumOfSize(bits, 1, |bits|, PopCount(m), m);
    }
  }

  // ----- the chosen criterion

  predicate Fit(es: seq<Element>, mask: nat) {
    Select(es, mask, true) != [] && Select(es, mask, false) != []
  }

  /** How unbalanced the two halves are; 1 is a perfect split. */
  function Score(es: seq<Element>, mask: nat): real
    requires Fit(es, mask)
  {
    Imbalance(|Select(es, mask, true)|, |Select(es, mask, false)|)
  }

  function Imbalance(yes: nat, no: nat): real
    requires yes != 0 && no != 0
  {
    if yes >= no then yes as real / no as real else no as real / yes as real
  }

  /** c is the earliest candidate of least score, and its score is acceptable. */
  ghost predicate Best(es: seq<Element>, c: nat)
    requires es != []
  {
    var cs := Candidates(CommonMask(es));
    && Fit(es, c)
    && Score(es, c) < 65.0
    && exists k :: 0 <= k < |cs| && cs[k] == c && Leading(es, cs, |cs|, k)
  }

  /** Candidate k scores no worse than every fit one among the first n, and better than every earlier one. */
  ghost predicate Leading(es: seq<Element>, cs: seq<nat>, n: nat, k: nat)
    requires k < n <= |cs|
  {
    && Fit(es, cs[k])
    && forall j :: 0 <= j < n && Fit(es, cs[j]) ==>
         Score(es, cs[k]) <= Score(es, cs[j]) && (j < k ==> Score(es, cs[k]) < Score(es, cs[j]))
  }

  ghost predicate NoCriterion(es: seq<Element>)
    requires es != []
  {
    forall c :: c in Candidates(CommonMask(es)) && Fit(es, c) ==> Score(es, c) >= 65.0
  }

  lemma BestIsUnique(es: seq<Element>, c: nat, d: nat)
    requires es != []
    ensures Best(es, c) && Best(es, d) ==> c == d
  {
    if Best(es, c) && Best(es, d) {
      var cs := Candidates(CommonMask(es));
      var k :| 0 <= k < |cs| && cs[k] == c && Leading(es, cs, |cs|, k);
      var l :| 0 <= l < |cs| && cs[l] == d && Leading(es, cs, |cs|, l);
      assert k == l;
    }
  }

  // ----- trees as values

  datatype Tree = Leaf(elements: seq<Element>) | Node(criterion: nat, ifTree: Tree, elseTree: Tree)

  /** The set the tree has to distinguish, split again and again while it has more than 4
      elements and some criterion is acceptable. */
  ghost predicate Grown(t: Tree, es: seq<Element>)
    decreases t
  {
    match t
    case Leaf(le) => le == es && (|es| > 4 ==> NoCriterion(es))
    case Node(c, _, _) => |es| > 4 && Divided(t, es)
  }

  /** One split of the set, whatever its size, with both halves grown. */
  ghost predicate Divided(t: Tree, es: seq<Element>)
    requires t.Node?
    decreases t, 0
  {
    && es != []
    && Best(es, t.criterion)
    && Grown(t.ifTree, Select(es, t.criterion, true))
    && Grown(t.elseTree, Select(es, t.criterion, false))
  }

  /** Walk down the tree by testing the opcode against each criterion. */
  function Descend(t: Tree, opcode: nat): seq<Element> {
    match t
    case Leaf(es) => es
    case Node(c, l, r) => if And(opcode, c) == 0 then Descend(l, opcode) else Descend(r, opcode)
  }

  function Elements(t: Tree): seq<Element> {
    match t
    case Leaf(es) => es
    case Node(_, l, r) => Elements(l) + Elements(r)
  }

  /** The contract leaves the builder no choice: a set has one tree. */
  lemma {:induction false} GrownIsUnique(t: Tree, u: Tree, es: seq<Element>)
    requires Grown(t, es) && Grown(u, es)
    ensures t == u
    decreases t
  {
    match t
    case Leaf(_) => if u.Node? { NotBoth(es, u.criterion); }
    case Node(_, _, _) =>
      if u.Leaf? { NotBoth(es, t.criterion); } else { DividedIsUnique(t, u, es); }
  }

  lemma {:induction false} DividedIsUnique(t: Tree, u: Tree, es: seq<Element>)
    requires t.Node? && u.Node? && Divided(t, es) && Divided(u, es)
    ensures t == u
    decreases t, 0
  {
    BestIsUnique(es, t.criterion, u.criterion);
    GrownIsUnique(t.ifTree, u.ifTree, Select(es, t.criterion, true));
    GrownIsUnique(t.elseTree, u.elseTree, Select(es, t.criterion, false));
  }

  lemma NotBoth(es: seq<Element>, c: nat)
    requires es != [] && Best(es, c)
    ensures !NoCriterion(es)
  {
    assert c in Candidates(CommonMask(es));
  }

  lemma BestWithin(es: seq<Element>, c: nat)
    requires es != [] && Best(es, c)
    ensures c in Candidates(CommonMask(es)) && Within(c, CommonMask(es)) && c != 0
  {
    CandidatesAreProperSubmasks(CommonMask(es), c);
  }

  /** Elements dropped by a split cannot match an opcode sent to the other half. */
  lemma {:induction false} SplitKeepsFirstMatch(es: seq<Element>, c: nat, opcode: nat)
    requires forall e :: e in es ==> Within(c, e.bitmask)
    ensures FirstMatch(Select(es, c, And(opcode, c) == 0), opcode) == FirstMatch(es, opcode)
  {
    if es != [] {
      var e := es[0];
      SplitKeepsFirstMatch(es[1..], c, opcode);
      if Matches(e, opcode) { AndNarrow(opcode, e.bitmask, c); }
      var kept := (And(e.bitvalue, c) == 0) == (And(opcode, c) == 0);
      var tail := Select(es[1..], c, And(opcode, c) == 0);
      if kept {
        assert Select(es, c, And(opcode, c) == 0) == [e] + tail;
        assert ([e] + tail)[1..] == tail;
      } else {
        assert Select(es, c, And(opcode, c) == 0) == tail;
      }
    }
  }

  /** The decision tree and the linear chain find the same element for every opcode,
      whether or not the element values lie within their masks. */
  lemma {:induction false} TreeAgreesWithChain(t: Tree, es: seq<Element>, opcode: nat)
    requires Grown(t, es)
    ensures FirstMatch(Descend(t, opcode), opcode) == FirstMatch(es, opcode)
    decreases t
  {
    if t.Node? { DividedAgreesWithChain(t, es, opcode); }
  }

  lemma {:induction false} DividedAgreesWithChain(t: Tree, es: seq<Element>, opcode: nat)
    requires t.Node? && Divided(t, es)
    ensures FirstMatch(Descend(t, opcode), opcode) == FirstMatch(es, opcode)
    decreases t, 0
  {
    var c := t.criterion;
    BestWithin(es, c);
    forall e | e in es ensures Within(c, e.bitmask) {
      forall i: nat | Bit(c, i) ensures Bit(e.bitmask, i) { CommonMaskBit(es, i); }
    }
    SplitKeepsFirstMatch(es, c, opcode);
    TreeAgreesWithChain(t.ifTree, Select(es, c, true), opcode);
    TreeAgreesWithChain(t.elseTree, Select(es, c, false), opcode);
  }

  lemma {:induction false} SelectConserves(es: seq<Element>, c: nat)
    ensures multiset(Select(es, c, true)) + multiset(Select(es, c, false)) == multiset(es)
    ensures |Select(es, c, true)| + |Select(es, c, false)| == |es|
  {
    if es != [] {
      SelectConserves(es[1..], c);
      assert es == [es[0]] + es[1..];
    }
  }

  lemma {:induction false} SelectMember(es: seq<Element>, c: nat, zero: bool)
    ensures forall e :: e in Select(es, c, zero) ==> e in es
  {
    if es != [] { SelectMember(es[1..], c, zero); }
  }

  /** Partitioning loses and duplicates nothing. */
  lemma {:induction false} GrownConserves(t: Tree, es: seq<Element>)
    requires Grown(t, es) || (t.Node? && Divided(t, es))
    ensures multiset(Elements(t)) == multiset(es)
  {
    if t.Node? {
      GrownConserves(t.ifTree, Select(es, t.criterion, true));
      GrownConserves(t.elseTree, Select(es, t.criterion, false));
      SelectConserves(es, t.criterion);
    }
  }

  /** A half of a set with a common mask has one too, so the exception cannot be raised below the root. */
  lemma HalfKeepsCommonMask(es: seq<Element>, c: nat, zero: bool)
    requires es != [] && Select(es, c, zero) != []
    ensures Within(CommonMask(es), CommonMask(Select(es, c, zero)))
    ensures CommonMask(es) != 0 ==> CommonMask(Select(es, c, zero)) != 0
  {
    var half := Select(es, c, zero);
    SelectMember(es, c, zero);
    forall i: nat | Bit(CommonMask(es), i) ensures Bit(CommonMask(half), i) {
      CommonMaskBit(es, i);
      CommonMaskBit(half, i);
    }
    if CommonMask(half) == 0 { WithinZero(CommonMask(es)); }
  }

  // ----- the builder

  datatype Child = SetChild(elements: seq<Element>) | PartitionChild(partition: Partition)

  /** A criterion with two halves; a half is replaced in place by a partition of it. */
  class Partition {
    const criterion: nat
    var ifSet: Child
    var elseSet: Child
    const len: nat
    ghost var shape: Tree
    ghost var repr: set<Partition>

    constructor (criterion: nat, ifElements: seq<Element>, elseElements: seq<Element>)
      ensures ifSet == SetChild(ifElements) && elseSet == SetChild(elseElements)
      ensures this.criterion == criterion && len == |ifElements| + |elseElements|
      ensures Valid() && repr == {this}
      ensures shape == Node(criterion, Leaf(ifElements), Leaf(elseElements))
    {
      this.criterion := criterion;
      ifSet := SetChild(ifElements);
      elseSet := SetChild(elseElements);
      len := |ifElements| + |elseElements|;
      shape := Node(criterion, Leaf(ifElements), Leaf(elseElements));
      repr := {this};
    }

    /** `shape` is the tree stored in the heap below this object, and `len` counts its elements. */
    ghost predicate Valid()
      reads this, repr
      decreases repr, 0
    {
      && this in repr
      && shape.Node? && shape.criterion == criterion && len == |Elements(shape)|
      && ChildShows(ifSet, shape.ifTree, repr - {this})
      && ChildShows(elseSet, shape.elseTree, repr - {this})
    }

    /** A new partition of es along its best criterion, neither half split yet. */
    ghost predicate SplitsOnce(es: seq<Element>)
      reads this, repr
    {
      && Valid() && repr == {this} && len == |es|
      && es != [] && CommonMask(es) != 0 && Best(es, criterion)
      && ifSet == SetChild(Select(es, criterion, true))
      && elseSet == SetChild(Select(es, criterion, false))
    }

    /** Try to split each half that has more than 4 elements, then go on below it. */
    method Refine(ghost es: seq<Element>)
      requires SplitsOnce(es)
      modifies this
      ensures Valid() && fresh(repr - {this})
      ensures Divided(shape, es)
      decreases |es|, 0
    {
      hide ChildShows, Divided, Grown, Elements, Best, CommonMask, NoCriterion;
      HalvesAreSmaller(es, criterion);
      ghost var zeros, ones := Select(es, criterion, true), Select(es, criterion, false);
      var ifChild, ifTree, ifRepr := GrowHalf(ifSet.elements);
      ifSet := ifChild;
      var elseChild, elseTree, elseRepr := GrowHalf(elseSet.elements);
      elseSet := elseChild;
      shape := Node(criterion, ifTree, elseTree);
      repr := {this} + ifRepr + elseRepr;
      DividedFrom(criterion, ifTree, elseTree, es);
      GrownConserves(shape, es);
      SameSize(Elements(shape), es);
      ShowsInMore(ifSet, ifTree, ifRepr, repr - {this});
      ShowsInMore(elseSet, elseTree, elseRepr, repr - {this});
    }
  }

  /** Split a half with more than 4 elements if it can be split, and refine what results. */
  method GrowHalf(half: seq<Element>) returns (child: Child, ghost tree: Tree, ghost repr: set<Partition>)
    requires half != [] && CommonMask(half) != 0
    ensures fresh(repr) && ChildShows(child, tree, repr)
    ensures Grown(tree, half)
    decreases |half|, 1
  {
    child, tree, repr := SetChild(half), Leaf(half), {};
    if |half| > 4 {
      var sub := PartitionSet(half);
      if sub.Split? {
        sub.partition.Refine(half);
        child, tree, repr := PartitionChild(sub.partition), sub.partition.shape, sub.partition.repr;
      }
    }
  }

  /** The child stands for the tree t, using only objects of repr. */
  ghost predicate ChildShows(child: Child, t: Tree, repr: set<Partition>)
    reads repr
    decreases repr, 1
  {
    match child
    case SetChild(es) => t == Leaf(es)
    case PartitionChild(p) => p in repr && p.repr <= repr && p.Valid() && p.shape == t
  }

  /** What a child stands for depends on no object outside its own. */
  lemma ShowsInMore(child: Child, t: Tree, repr: set<Partition>, more: set<Partition>)
    requires ChildShows(child, t, repr) && repr <= more
    ensures ChildShows(child, t, more)
  {
  }

  lemma DividedFrom(c: nat, ifTree: Tree, elseTree: Tree, es: seq<Element>)
    requires es != [] && Best(es, c)
    requires Grown(ifTree, Select(es, c, true)) && Grown(elseTree, Select(es, c, false))
    ensures Divided(Node(c, ifTree, elseTree), es)
  {
  }

  lemma SameSize<T>(a: seq<T>, b: seq<T>)
    requires multiset(a) == multiset(b)
    ensures |a| == |b|
  {
    assert |multiset(a)| == |multiset(b)|;
  }

  lemma HalvesAreSmaller(es: seq<Element>, c: nat)
    requires es != [] && CommonMask(es) != 0 && Best(es, c)
    ensures forall zero ::
      var half := Select(es, c, zero);
      half != [] && CommonMask(half) != 0 && |half| < |es|
  {
    SelectConserves(es, c);
    HalfKeepsCommonMask(es, c, true);
    HalfKeepsCommonMask(es, c, false);
  }

  datatype Split = Split(partition: Partition) | NoSplit | NoCommonMask | EmptySet

  /** `commonmask`: starts from the first element and meets every element. */
  method ComputeCommonMask(es: seq<Element>) returns (common: nat)
    requires es != []
    ensures common == CommonMask(es)
  {
    common := es[0].bitmask;
    for i := 0 to |es|
      invariant i == 0 ==> common == es[0].bitmask
      invariant i > 0 ==> common == CommonMask(es[..i])
    {
      CommonMaskSnoc(es, i);
      common := And(common, es[i].bitmask);
    }
    assert es[..|es|] == es;
  }

  /** The search loop: the earliest candidate of least score, with its score. */
  method FindCriterion(es: seq<Element>, candidates: seq<nat>) returns (minscore: Option<real>, minmask: nat)
    ensures minscore == None ==> forall j :: 0 <= j < |candidates| ==> !Fit(es, candidates[j])
    ensures minscore.Some? ==>
      exists k :: 0 <= k < |candidates| && candidates[k] == minmask &&
        Leading(es, candidates, |candidates|, k) && minscore.value == Score(es, minmask)
  {
    minscore, minmask := None, 0;
    ghost var k := 0;
    hide Score, Fit, Select, Imbalance;
    for i := 0 to |candidates|
      invariant minscore == None ==> forall j :: 0 <= j < i ==> !Fit(es, candidates[j])
      invariant minscore.Some? ==>
        k < i && candidates[k] == minmask && Leading(es, candidates, i, k) && minscore.value == Score(es, minmask)
    {
      var mask := candidates[i];
      var discriminatorcnt := |Select(es, mask, true)|;
      var remaining := |es| - discriminatorcnt;
      CountsDecideFit(es, mask);
      if discriminatorcnt == 0 || remaining == 0 { continue; }
      var score := Imbalance(discriminatorcnt, remaining);
      if minscore == None || score < minscore.value {
        minscore, minmask, k := Some(score), mask, i;
      }
      assert Leading(es, candidates, i + 1, k);
    }
  }

  lemma CountsDecideFit(es: seq<Element>, mask: nat)
    ensures |Select(es, mask, true)| <= |es|
    ensures var yes := |Select(es, mask, true)|;
      if yes == 0 || |es| - yes == 0 then !Fit(es, mask)
      else Fit(es, mask) && Score(es, mask) == Imbalance(yes, |es| - yes)
  {
    SelectConserves(es, mask);
  }

  /** Split a set once along its best criterion. The two errors are the source's exceptions:
      indexing an empty element list, and a set without a common mask. */
  method PartitionSet(es: seq<Element>) returns (r: Split)
    ensures r == EmptySet <==> es == []
    ensures r == NoCommonMask <==> es != [] && CommonMask(es) == 0
    ensures r == NoSplit <==> es != [] && CommonMask(es) != 0 && NoCriterion(es)
    ensures r.Split? ==> fresh(r.partition) && r.partition.SplitsOnce(es)
  {
    if es == [] { return EmptySet; }
    var common := ComputeCommonMask(es);
    if common == 0 { return NoCommonMask; }
    var minscore, minmask := FindCriterion(es, Candidates(common));
    if minscore.Some? && minscore.value < 65.0 {
      assert Best(es, minmask);
      NotBoth(es, minmask);
      SelectConserves(es, minmask);
      var p := new Partition(minmask, Select(es, minmask, true), Select(es, minmask, false));
      return Split(p);
    }
    assert NoCriterion(es);
    return NoSplit;
  }

  lemma {:induction false} CommonMaskSnoc(es: seq<Element>, i: nat)
    requires i < |es|
    ensures i == 0 ==> And(es[0].bitmask, es[0].bitmask) == CommonMask(es[..1])
    ensures i > 0 ==> And(CommonMask(es[..i]), es[i].bitmask) == CommonMask(es[..i + 1])
  {
    var before := if i == 0 then es[0].bitmask else CommonMask(es[..i]);
    forall b: nat ensures Bit(And(before, es[i].bitmask), b) <==> Bit(CommonMask(es[..i + 1]), b) {
      AndBit(before, es[i].bitmask, b);
      CommonMaskBit(es[..i + 1], b);
      if i > 0 { CommonMaskBit(es[..i], b); }
      assert es[..i + 1] == es[..i] + [es[i]];
    }
    Extensionality(And(before, es[i].bitmask), CommonMask(es[..i + 1]));
  }

  /** What `Partitioner.partition` ends with; NotSplittable is the attribute error on `None`. */
  datatype Outcome = Built(root: Partition) | NotSplittable | NoSharedMask | NoElements

  class Partitioner {
    var rootset: seq<Element>

    constructor ()
      ensures rootset == []
    {
      rootset := [];
    }

    method Add(identifier: string, bitmask: nat, bitvalue: nat)
      modifies this
      ensures rootset == old(rootset) + [Element(identifier, bitmask, bitvalue)]
    {
      rootset := rootset + [Element(identifier, bitmask, bitvalue)];
    }

    /** The whole tree. A tree that is built agrees with the linear chain over the added elements. */
    method Build() returns (r: Outcome)
      ensures r == NoElements <==> rootset == []
      ensures r == NoSharedMask <==> rootset != [] && CommonMask(rootset) == 0
      ensures r == NotSplittable <==> rootset != [] && CommonMask(rootset) != 0 && NoCriterion(rootset)
      ensures r.Built? ==>
        && fresh(r.root.repr) && r.root.Valid() && r.root.len == |rootset|
        && Divided(r.root.shape, rootset)
        && multiset(Elements(r.root.shape)) == multiset(rootset)
        && forall opcode: nat ::
             FirstMatch(Descend(r.root.shape, opcode), opcode) == FirstMatch(rootset, opcode)
    {
      var split := PartitionSet(rootset);
      match split
      case EmptySet => return NoElements;
      case NoCommonMask => return NoSharedMask;
      case NoSplit => return NotSplittable;
      case Split(p) =>
        NotBoth(rootset, p.criterion);
        p.Refine(rootset);
        GrownConserves(p.shape, rootset);
        forall opcode: nat
          ensures FirstMatch(Descend(p.shape, opcode), opcode) == FirstMatch(rootset, opcode)
        {
          DividedAgreesWithChain(p.shape, rootset, opcode);
        }
        return Built(p);
    }
  }
}
