/** The bit-layout compiler: a layout such as "11110 imm.4 cond{4} imm{6}.1" becomes a mask, a
    compare value and, for each variable, an expression of masks and shifts grouped by shift
    distance (codegen/InsnSet.py, codegen/BitfieldParser.py). */
module Bitfield {
  import opened Bits
  import opened Options

  /** One element of a layout; constant bits are written most significant first. */
  datatype Field =
    | Constant(bits: seq<bool>, dontcare: bool)
    | Variable(name: string, iterations: nat, position: Option<nat>)
  {
    function Width(): nat {
      if Constant? then |bits| else iterations
    }
  }

  /** Where a piece of a variable lies in the word, and the key its pieces are ordered by. */
  datatype Slot = Slot(lo: nat, width: nat, position: nat)

  function Reverse<T>(s: seq<T>): (r: seq<T>)
    ensures |r| == |s|
  {
    if s == [] then [] else [s[|s| - 1]] + Reverse(s[..|s| - 1])
  }

  function Value(bits: seq<bool>): nat {
    if bits == [] then 0 else 2 * Value(bits[..|bits| - 1]) + BitValue(bits[|bits| - 1])
  }

  // ----- layouts. All functions below take the fields lowest bits first.

  function Width(fs: seq<Field>): nat {
    if fs == [] then 0 else Width(fs[..|fs| - 1]) + fs[|fs| - 1].Width()
  }

  /** How many fields of that name carry no explicit position. */
  function ImplicitCount(fs: seq<Field>, name: string): nat {
    if fs == [] then 0
    else
      var f := fs[|fs| - 1];
      ImplicitCount(fs[..|fs| - 1], name) + BitValue(f.Variable? && f.name == name && f.position == None)
  }

  /** The pieces of a variable from the low end of the word up. */
  function SlotsOf(fs: seq<Field>, name: string): seq<Slot> {
    if fs == [] then []
    else
      var (init, f) := (fs[..|fs| - 1], fs[|fs| - 1]);
      SlotsOf(init, name) +
      if f.Variable? && f.name == name
      then [Slot(Width(init), f.iterations, f.position.GetOr(ImplicitCount(init, name)))]
      else []
  }

  function ConstantMask(fs: seq<Field>): nat {
    if fs == [] then 0
    else
      var (init, f) := (fs[..|fs| - 1], fs[|fs| - 1]);
      if f.Constant? && !f.dontcare then Or(Mask(Width(init), |f.bits|), ConstantMask(init)) else ConstantMask(init)
  }

  function ConstantValue(fs: seq<Field>): nat {
    if fs == [] then 0
    else
      var (init, f) := (fs[..|fs| - 1], fs[|fs| - 1]);
      if f.Constant? && !f.dontcare then Or(ConstantValue(init), Shl(Value(f.bits), Width(init)))
      else ConstantValue(init)
  }

  predicate HasConstant(fs: seq<Field>) {
    exists f :: f in fs && f.Constant? && !f.dontcare
  }

  // ----- Python's stable sort by position

  function Insert(sorted: seq<Slot>, x: Slot): seq<Slot> {
    if sorted == [] || sorted[|sorted| - 1].position <= x.position then sorted + [x]
    else Insert(sorted[..|sorted| - 1], x) + [sorted[|sorted| - 1]]
  }

  function SortByPosition(slots: seq<Slot>): seq<Slot> {
    if slots == [] then [] else Insert(SortByPosition(slots[..|slots| - 1]), slots[|slots| - 1])
  }

  function AtPosition(slots: seq<Slot>, p: nat): seq<Slot> {
    if slots == [] then []
    else AtPosition(slots[..|slots| - 1], p) + if slots[|slots| - 1].position == p then [slots[|slots| - 1]] else []
  }

  ghost predicate Ordered(slots: seq<Slot>) {
    forall i, j :: 0 <= i < j < |slots| ==> slots[i].position <= slots[j].position
  }

  lemma {:induction false} InsertKeeps(sorted: seq<Slot>, x: Slot)
    ensures multiset(Insert(sorted, x)) == multiset(sorted) + multiset{x}
  {
    if sorted != [] && sorted[|sorted| - 1].position > x.position {
      var (init, last) := (sorted[..|sorted| - 1], sorted[|sorted| - 1]);
      assert sorted == init + [last];
      InsertKeeps(init, x);
    }
  }

  lemma {:induction false} InsertOrdered(sorted: seq<Slot>, x: Slot)
    requires Ordered(sorted)
    ensures Ordered(Insert(sorted, x))
  {
    if sorted != [] && sorted[|sorted| - 1].position > x.position {
      var (init, last) := (sorted[..|sorted| - 1], sorted[|sorted| - 1]);
      InsertOrdered(init, x);
      InsertKeeps(init, x);
      var r := Insert(init, x);
      forall i | 0 <= i < |r| ensures r[i].position <= last.position { assert r[i] in multiset(r); }
      AppendOrdered(r, last);
    }
  }

  lemma AppendOrdered(r: seq<Slot>, last: Slot)
    requires Ordered(r) && forall i :: 0 <= i < |r| ==> r[i].position <= last.position
    ensures Ordered(r + [last])
  {
  }

  lemma {:induction false} InsertStable(sorted: seq<Slot>, x: Slot, p: nat)
    requires Ordered(sorted)
    ensures AtPosition(Insert(sorted, x), p) == AtPosition(sorted, p) + if x.position == p then [x] else []
  {
    var r := Insert(sorted, x);
    if sorted != [] && sorted[|sorted| - 1].position > x.position {
      var (init, last) := (sorted[..|sorted| - 1], sorted[|sorted| - 1]);
      InsertStable(init, x, p);
      assert r[..|r| - 1] == Insert(init, x);
      if x.position == p { NoneAbove(sorted, p); }
    } else {
      assert r[..|r| - 1] == sorted;
    }
  }

  lemma NoneAbove(sorted: seq<Slot>, p: nat)
    requires sorted != [] && sorted[|sorted| - 1].position > p
    ensures AtPosition(sorted, p) == AtPosition(sorted[..|sorted| - 1], p)
  {
  }

  lemma {:induction false} SortIsOrdered(slots: seq<Slot>)
    ensures Ordered(SortByPosition(slots))
    ensures multiset(SortByPosition(slots)) == multiset(slots)
  {
    if slots != [] {
      var (init, last) := (slots[..|slots| - 1], slots[|slots| - 1]);
      SortIsOrdered(init);
      InsertOrdered(SortByPosition(init), last);
      InsertKeeps(SortByPosition(init), last);
      assert slots == init + [last];
    }
  }

  /** Pieces with equal positions keep their order. */
  lemma {:induction false} SortIsStable(slots: seq<Slot>, p: nat)
    ensures AtPosition(SortByPosition(slots), p) == AtPosition(slots, p)
  {
    if slots != [] {
      var (init, last) := (slots[..|slots| - 1], slots[|slots| - 1]);
      SortIsStable(init, p);
      SortIsOrdered(init);
      InsertStable(SortByPosition(init), last, p);
    }
  }

  // ----- what a variable means: bit j of it is bit SourceBit(slots, j) of the word

  function TotalWidth(slots: seq<Slot>): nat {
    if slots == [] then 0 else TotalWidth(slots[..|slots| - 1]) + slots[|slots| - 1].width
  }

  function SourceBit(slots: seq<Slot>, j: nat): nat
    requires j < TotalWidth(slots)
  {
    var (init, last) := (slots[..|slots| - 1], slots[|slots| - 1]);
    if j < TotalWidth(init) then SourceBit(init, j) else last.lo + j - TotalWidth(init)
  }

  /** How many pieces cover word bit b. */
  function Cover(slots: seq<Slot>, b: nat): nat {
    if slots == [] then 0
    else
      var last := slots[|slots| - 1];
      Cover(slots[..|slots| - 1], b) + BitValue(last.lo <= b < last.lo + last.width)
  }

  /** The variable's bit that word bit b supplies. */
  function TargetBit(slots: seq<Slot>, b: nat): nat
    requires Cover(slots, b) > 0
  {
    var (init, last) := (slots[..|slots| - 1], slots[|slots| - 1]);
    if last.lo <= b < last.lo + last.width then TotalWidth(init) + b - last.lo else TargetBit(init, b)
  }

  lemma {:induction false} SourceIsCovered(slots: seq<Slot>, j: nat)
    requires j < TotalWidth(slots)
    ensures Cover(slots, SourceBit(slots, j)) > 0
  {
    var init := slots[..|slots| - 1];
    if j < TotalWidth(init) { SourceIsCovered(init, j); }
  }

  /** Pieces that do not overlap make source and target bits inverse to each other. */
  lemma {:induction false} SourceTargetInverse(slots: seq<Slot>, j: nat, b: nat)
    requires Cover(slots, b) <= 1
    ensures j < TotalWidth(slots) && SourceBit(slots, j) == b ==> Cover(slots, b) > 0 && TargetBit(slots, b) == j
    ensures Cover(slots, b) > 0 && TargetBit(slots, b) == j ==> j < TotalWidth(slots) && SourceBit(slots, j) == b
  {
    if slots != [] {
      var (init, last) := (slots[..|slots| - 1], slots[|slots| - 1]);
      SourceTargetInverse(init, j, b);
    }
  }

  lemma {:induction false} InsertCover(sorted: seq<Slot>, x: Slot, b: nat)
    ensures Cover(Insert(sorted, x), b) == Cover(sorted, b) + BitValue(x.lo <= b < x.lo + x.width)
    ensures TotalWidth(Insert(sorted, x)) == TotalWidth(sorted) + x.width
  {
    var r := Insert(sorted, x);
    if sorted != [] && sorted[|sorted| - 1].position > x.position {
      var init := sorted[..|sorted| - 1];
      InsertCover(init, x, b);
      assert r[..|r| - 1] == Insert(init, x);
    } else {
      assert r[..|r| - 1] == sorted;
    }
  }

  lemma {:induction false} SortCover(slots: seq<Slot>, b: nat)
    ensures Cover(SortByPosition(slots), b) == Cover(slots, b)
    ensures TotalWidth(SortByPosition(slots)) == TotalWidth(slots)
  {
    if slots != [] {
      SortCover(slots[..|slots| - 1], b);
      InsertCover(SortByPosition(slots[..|slots| - 1]), slots[|slots| - 1], b);
    }
  }

  /** The field that holds word bit p. */
  function Owner(fs: seq<Field>, p: nat): Field
    requires p < Width(fs)
  {
    var init := fs[..|fs| - 1];
    if p < Width(init) then Owner(init, p) else fs[|fs| - 1]
  }

  /** Every bit of the word belongs to the pieces of one variable at most. */
  lemma {:induction false} OwnerCovers(fs: seq<Field>, name: string, p: nat)
    ensures Cover(SlotsOf(fs, name), p) ==
      BitValue(p < Width(fs) && Owner(fs, p).Variable? && Owner(fs, p).name == name)
  {
    if fs != [] {
      var (init, f) := (fs[..|fs| - 1], fs[|fs| - 1]);
      OwnerCovers(init, name, p);
      var s := SlotsOf(fs, name);
      if f.Variable? && f.name == name {
        assert s[..|s| - 1] == SlotsOf(init, name);
      } else {
        assert s == SlotsOf(init, name);
      }
    }
  }

  // ----- compilation: components grouped by shift distance

  function AddComponent(components: map<int, nat>, srclobit: nat, bitlen: nat, dstlobit: nat): map<int, nat> {
    var (shl, srcmask) := (dstlobit - srclobit, Mask(srclobit, bitlen));
    components[shl := if shl in components then Or(srcmask, components[shl]) else srcmask]
  }

  /** All pieces added one after the other, each right above the ones before it. */
  function Components(slots: seq<Slot>): map<int, nat> {
    if slots == [] then map[]
    else
      var (init, last) := (slots[..|slots| - 1], slots[|slots| - 1]);
      AddComponent(Components(init), last.lo, last.width, TotalWidth(init))
  }

  ghost predicate ComponentBit(components: map<int, nat>, shl: int, b: nat) {
    shl in components && Bit(components[shl], b)
  }

  lemma AddComponentBit(components: map<int, nat>, lo: nat, len: nat, dst: nat, shl: int, b: nat)
    ensures ComponentBit(AddComponent(components, lo, len, dst), shl, b) <==>
      ComponentBit(components, shl, b) || (shl == dst - lo && lo <= b < lo + len)
  {
    MaskBit(lo, len, b);
    if shl == dst - lo && shl in components { OrBit(Mask(lo, len), components[shl], b); }
  }

  /** Word bit b is in the group that moves it to bit j exactly when it is the source of bit j. */
  lemma {:induction false} ComponentsBit(slots: seq<Slot>, j: int, b: nat)
    ensures ComponentBit(Components(slots), j - b, b) <==> 0 <= j < TotalWidth(slots) && SourceBit(slots, j) == b
  {
    if slots != [] {
      var (init, last) := (slots[..|slots| - 1], slots[|slots| - 1]);
      ComponentsBit(init, j, b);
      AddComponentBit(Components(init), last.lo, last.width, TotalWidth(init), j - b, b);
    }
  }

  // ----- the generated expression

  /** `(w & mask) << dist`, `(w & mask)` or `(w & mask) >> dist` */
  datatype Term = Left(mask: nat, dist: nat) | Plain(mask: nat) | Right(mask: nat, dist: nat)
  {
    function Eval(w: nat): nat {
      match this
      case Left(m, d) => Shl(And(w, m), d)
      case Plain(m) => And(w, m)
      case Right(m, d) => Shr(And(w, m), d)
    }
  }

  /** `_cshl` applied to the masked input */
  function ShiftTerm(mask: nat, shl: int): Term {
    if shl > 0 then Left(mask, shl) else if shl == 0 then Plain(mask) else Right(mask, -shl)
  }

  ghost predicate IsLeast(k: int, keys: set<int>) {
    k in keys && forall j :: j in keys ==> k <= j
  }

  lemma EmptyOrMember(keys: set<int>)
    ensures keys == {} || exists k :: k in keys
  {
    if forall k :: k !in keys { assert keys == {}; }
  }

  lemma {:induction false} LeastExists(keys: set<int>)
    requires keys != {}
    ensures exists k :: IsLeast(k, keys)
  {
    EmptyOrMember(keys);
    var x :| x in keys;
    var rest := keys - {x};
    var least := x;
    if rest != {} {
      LeastExists(rest);
      var k :| IsLeast(k, rest);
      least := if x < k then x else k;
    }
    forall j | j in keys ensures least <= j { assert j == x || j in rest; }
    assert IsLeast(least, keys);
  }

  ghost function SortedKeys(keys: set<int>): seq<int>
    decreases |keys|
  {
    if keys == {} then []
    else
      LeastExists(keys);
      var k :| IsLeast(k, keys);
      [k] + SortedKeys(keys - {k})
  }

  lemma {:induction false} SortedKeysMembers(keys: set<int>, k: int)
    ensures k in SortedKeys(keys) <==> k in keys
    decreases |keys|
  {
    if keys != {} {
      LeastExists(keys);
      var l :| IsLeast(l, keys) && SortedKeys(keys) == [l] + SortedKeys(keys - {l});
      SortedKeysMembers(keys - {l}, k);
    }
  }

  /** The terms in ascending order of shift, for a word whose layout starts at bit `base`. */
  ghost function Terms(components: map<int, nat>, keys: seq<int>, base: nat): seq<Term>
    requires forall i :: 0 <= i < |keys| ==> keys[i] in components
  {
    seq(|keys|, i requires 0 <= i < |keys| => ShiftTerm(Shl(components[keys[i]], base), keys[i] - base))
  }

  /** `" | ".join(...)`, evaluated */
  function EvalOr(terms: seq<Term>, w: nat): nat {
    if terms == [] then 0 else Or(EvalOr(terms[..|terms| - 1], w), terms[|terms| - 1].Eval(w))
  }

  ghost function OrigExpression(components: map<int, nat>, base: nat): seq<Term> {
    var keys := SortedKeys(components.Keys);
    assert forall i :: 0 <= i < |keys| ==> keys[i] in components by {
      forall i | 0 <= i < |keys| ensures keys[i] in components { SortedKeysMembers(components.Keys, keys[i]); }
    }
    Terms(components, keys, base)
  }

  lemma {:induction false} EvalOrBit(terms: seq<Term>, w: nat, j: nat)
    ensures Bit(EvalOr(terms, w), j) <==> exists i :: 0 <= i < |terms| && Bit(terms[i].Eval(w), j)
  {
    if terms == [] {
      ZeroBit(j);
    } else {
      var init := terms[..|terms| - 1];
      OrBit(EvalOr(init, w), terms[|terms| - 1].Eval(w), j);
      EvalOrBit(init, w, j);
      if i :| 0 <= i < |init| && Bit(init[i].Eval(w), j) { assert Bit(terms[i].Eval(w), j); }
      if i :| 0 <= i < |terms| && Bit(terms[i].Eval(w), j) {
        if i < |init| { assert Bit(init[i].Eval(w), j); }
      }
    }
  }

  lemma TermBit(mask: nat, shl: int, base: nat, w: nat, j: nat)
    ensures Bit(ShiftTerm(Shl(mask, base), shl - base).Eval(w), j) <==>
      j >= shl && Bit(w, base + j - shl) && Bit(mask, j - shl)
  {
    var (m, dist) := (Shl(mask, base), shl - base);
    if dist > 0 {
      ShlBit(And(w, m), dist, j);
    } else if dist < 0 {
      ShrBit(And(w, m), -dist, j);
    }
    if j >= dist {
      AndBit(w, m, j - dist);
      ShlBit(mask, base, j - dist);
    }
  }

  /** The group of shift distance shl contributes bit j exactly when it holds the source of bit j. */
  lemma GroupBit(slots: seq<Slot>, base: nat, w: nat, j: nat, shl: int)
    requires shl in Components(slots)
    ensures Bit(ShiftTerm(Shl(Components(slots)[shl], base), shl - base).Eval(w), j) <==>
      j < TotalWidth(slots) && SourceBit(slots, j) == j - shl && Bit(w, base + SourceBit(slots, j))
  {
    TermBit(Components(slots)[shl], shl, base, w, j);
    if j >= shl {
      ComponentsBit(slots, j, j - shl);
    }
  }

  /** The compiled expression is the bit-by-bit gather of the variable, whatever the other bits of
      the word hold: the low half of a widened 16-bit word included. */
  lemma ExpressionGathers(slots: seq<Slot>, base: nat, w: nat, j: nat)
    ensures Bit(EvalOr(OrigExpression(Components(slots), base), w), j) <==>
      j < TotalWidth(slots) && Bit(w, base + SourceBit(slots, j))
  {
    hide SourceBit, TotalWidth, Components, SortedKeys, EvalOr, Bit;
    var components := Components(slots);
    var keys := SortedKeys(components.Keys);
    var terms := OrigExpression(components, base);
    EvalOrBit(terms, w, j);
    forall i | 0 <= i < |terms|
      ensures keys[i] in components
      ensures Bit(terms[i].Eval(w), j) <==>
        j < TotalWidth(slots) && SourceBit(slots, j) == j - keys[i] && Bit(w, base + SourceBit(slots, j))
    {
      SortedKeysMembers(components.Keys, keys[i]);
      GroupBit(slots, base, w, j, keys[i]);
    }
    if j < TotalWidth(slots) && Bit(w, base + SourceBit(slots, j)) {
      var b := SourceBit(slots, j);
      ComponentsBit(slots, j, b);
      SortedKeysMembers(components.Keys, j - b);
      var i :| 0 <= i < |keys| && keys[i] == j - b;
      assert Bit(terms[i].Eval(w), j);
    }
  }

  // ----- constants

  lemma {:induction false} ValueBit(bits: seq<bool>, i: nat)
    ensures Bit(Value(bits), i) <==> i < |bits| && bits[|bits| - 1 - i]
  {
    if bits == [] {
      ZeroBit(i);
    } else if i > 0 {
      ValueBit(bits[..|bits| - 1], i - 1);
    }
  }

  /** The constant bit written at word bit p. */
  predicate WrittenBit(fs: seq<Field>, p: nat)
    requires p < Width(fs) && Owner(fs, p).Constant?
  {
    var (init, f) := (fs[..|fs| - 1], fs[|fs| - 1]);
    if p < Width(init) then WrittenBit(init, p) else f.bits[|f.bits| - 1 - (p - Width(init))]
  }

  predicate Cares(fs: seq<Field>, p: nat) {
    p < Width(fs) && Owner(fs, p).Constant? && !Owner(fs, p).dontcare
  }

  lemma {:induction false} ConstantMaskBit(fs: seq<Field>, p: nat)
    ensures Bit(ConstantMask(fs), p) <==> Cares(fs, p)
  {
    if fs == [] {
      ZeroBit(p);
    } else {
      var (init, f) := (fs[..|fs| - 1], fs[|fs| - 1]);
      ConstantMaskBit(init, p);
      if f.Constant? {
        OrBit(Mask(Width(init), |f.bits|), ConstantMask(init), p);
        MaskBit(Width(init), |f.bits|, p);
      }
    }
  }

  lemma {:induction false} ConstantValueBit(fs: seq<Field>, p: nat)
    ensures Bit(ConstantValue(fs), p) <==> Cares(fs, p) && WrittenBit(fs, p)
  {
    if fs == [] {
      ZeroBit(p);
    } else {
      var (init, f) := (fs[..|fs| - 1], fs[|fs| - 1]);
      ConstantValueBit(init, p);
      if f.Constant? {
        OrBit(ConstantValue(init), Shl(Value(f.bits), Width(init)), p);
        ShlBit(Value(f.bits), Width(init), p);
        if p >= Width(init) { ValueBit(f.bits, p - Width(init)); }
      }
    }
  }

  // ----- encoding and decoding

  function Pieces(fs: seq<Field>, name: string): seq<Slot> {
    SortByPosition(SlotsOf(fs, name))
  }

  /** The value the generated decoder computes for a variable. */
  ghost function Extract(fs: seq<Field>, name: string, base: nat, w: nat): nat {
    EvalOr(OrigExpression(Components(Pieces(fs, name)), base), w)
  }

  /** The generated test `(opcode & mask) == cmp`. */
  predicate PassesTest(fs: seq<Field>, base: nat, w: nat) {
    And(w, Shl(ConstantMask(fs), base)) == Shl(ConstantValue(fs), base)
  }

  ghost predicate FitsLayout(fs: seq<Field>, values: map<string, nat>) {
    && (forall f :: f in fs && f.Variable? ==> f.name in values)
    && (forall name :: name in values ==> values[name] < Pow2(TotalWidth(Pieces(fs, name))))
  }

  lemma {:induction false} OwnerIsField(fs: seq<Field>, p: nat)
    requires p < Width(fs)
    ensures Owner(fs, p) in fs
  {
    if p < Width(fs[..|fs| - 1]) { OwnerIsField(fs[..|fs| - 1], p); }
  }

  /** The pieces of a variable cover exactly the word bits its fields own, each once. */
  lemma PiecesCover(fs: seq<Field>, name: string, p: nat)
    ensures Cover(Pieces(fs, name), p) ==
      BitValue(p < Width(fs) && Owner(fs, p).Variable? && Owner(fs, p).name == name)
  {
    OwnerCovers(fs, name, p);
    SortCover(SlotsOf(fs, name), p);
  }

  /** The bit an encoder writes at p: the constant, or the variable's bit that p supplies. */
  ghost predicate EncodedBit(fs: seq<Field>, values: map<string, nat>, p: nat)
    requires FitsLayout(fs, values) && p < Width(fs)
  {
    var f := Owner(fs, p);
    if f.Constant? then WrittenBit(fs, p)
    else
      OwnerIsField(fs, p);
      PiecesCover(fs, f.name, p);
      Bit(values[f.name], TargetBit(Pieces(fs, f.name), p))
  }

  ghost predicate Encodes(fs: seq<Field>, values: map<string, nat>, base: nat, w: nat)
    requires FitsLayout(fs, values)
  {
    forall p :: 0 <= p < Width(fs) && (Owner(fs, p).Constant? ==> !Owner(fs, p).dontcare) ==>
      (Bit(w, base + p) <==> EncodedBit(fs, values, p))
  }

  /** The test looks at the constants and at nothing else. */
  lemma TestReadsConstants(fs: seq<Field>, base: nat, w: nat)
    ensures PassesTest(fs, base, w) <==>
      forall p :: 0 <= p < Width(fs) && Cares(fs, p) ==> (Bit(w, base + p) <==> WrittenBit(fs, p))
  {
    var (mask, value) := (Shl(ConstantMask(fs), base), Shl(ConstantValue(fs), base));
    forall i: nat
      ensures Bit(And(w, mask), i) <==> Bit(w, i) && i >= base && Cares(fs, i - base)
      ensures Bit(value, i) <==> i >= base && Cares(fs, i - base) && WrittenBit(fs, i - base)
    {
      AndBit(w, mask, i);
      ShlBit(ConstantMask(fs), base, i);
      ShlBit(ConstantValue(fs), base, i);
      if i >= base {
        ConstantMaskBit(fs, i - base);
        ConstantValueBit(fs, i - base);
      }
    }
    if PassesTest(fs, base, w) {
      forall p | 0 <= p < Width(fs) && Cares(fs, p) ensures Bit(w, base + p) <==> WrittenBit(fs, p) {
        assert Bit(And(w, mask), base + p) <==> Bit(value, base + p);
      }
    }
    if forall p :: 0 <= p < Width(fs) && Cares(fs, p) ==> (Bit(w, base + p) <==> WrittenBit(fs, p)) {
      forall i: nat ensures Bit(And(w, mask), i) <==> Bit(value, i) {
        if i >= base && Cares(fs, i - base) { assert Bit(w, base + (i - base)) <==> WrittenBit(fs, i - base); }
      }
      Extensionality(And(w, mask), value);
    }
  }

  /** Every word bit the variable owns shows the right bit of the value. */
  ghost predicate VariableRight(fs: seq<Field>, name: string, base: nat, w: nat, value: nat) {
    forall p :: 0 <= p < Width(fs) && Cover(Pieces(fs, name), p) > 0 ==>
      (Bit(w, base + p) <==> Bit(value, TargetBit(Pieces(fs, name), p)))
  }

  /** A variable is extracted right exactly when each of its word bits is. */
  lemma ExtractReadsVariable(fs: seq<Field>, name: string, base: nat, w: nat, value: nat)
    requires value < Pow2(TotalWidth(Pieces(fs, name)))
    ensures Extract(fs, name, base, w) == value <==> VariableRight(fs, name, base, w, value)
  {
    var slots := Pieces(fs, name);
    forall b: nat ensures Cover(slots, b) <= 1 && (Cover(slots, b) > 0 ==> b < Width(fs)) {
      PiecesCover(fs, name, b);
    }
    if Extract(fs, name, base, w) == value {
      forall p | 0 <= p < Width(fs) && Cover(slots, p) > 0
        ensures Bit(w, base + p) <==> Bit(value, TargetBit(slots, p))
      {
        SourceTargetInverse(slots, TargetBit(slots, p), p);
        ExpressionGathers(slots, base, w, TargetBit(slots, p));
      }
    }
    if VariableRight(fs, name, base, w, value) {
      forall j: nat ensures Bit(Extract(fs, name, base, w), j) <==> Bit(value, j) {
        ExpressionGathers(slots, base, w, j);
        BoundedBits(value, TotalWidth(slots));
        if j < TotalWidth(slots) {
          SourceIsCovered(slots, j);
          SourceTargetInverse(slots, j, SourceBit(slots, j));
          assert TargetBit(slots, SourceBit(slots, j)) == j;
        }
      }
      Extensionality(Extract(fs, name, base, w), value);
    }
  }

  /** Decoding inverts encoding: a word passes the test and yields exactly the given values if and
      only if it is their encoding up to don't-care bits and bits outside the layout. */
  lemma DecodesIffEncodes(fs: seq<Field>, values: map<string, nat>, base: nat, w: nat)
    requires FitsLayout(fs, values)
    ensures PassesTest(fs, base, w) && (forall name :: name in values ==> Extract(fs, name, base, w) == values[name])
      <==> Encodes(fs, values, base, w)
  {
    TestReadsConstants(fs, base, w);
    forall name | name in values
      ensures Extract(fs, name, base, w) == values[name] <==> VariableRight(fs, name, base, w, values[name])
    {
      ExtractReadsVariable(fs, name, base, w, values[name]);
    }
    forall p | 0 <= p < Width(fs) ensures Owner(fs, p) in fs { OwnerIsField(fs, p); }
    if Encodes(fs, values, base, w) {
      forall name | name in values ensures VariableRight(fs, name, base, w, values[name]) {
        forall p | 0 <= p < Width(fs) && Cover(Pieces(fs, name), p) > 0
          ensures Bit(w, base + p) <==> Bit(values[name], TargetBit(Pieces(fs, name), p))
        {
          PiecesCover(fs, name, p);
          assert EncodedBit(fs, values, p) == Bit(values[name], TargetBit(Pieces(fs, name), p));
        }
      }
      forall p | 0 <= p < Width(fs) && Cares(fs, p) ensures Bit(w, base + p) <==> WrittenBit(fs, p) {
        assert EncodedBit(fs, values, p) == WrittenBit(fs, p);
      }
    }
    if PassesTest(fs, base, w) && (forall name :: name in values ==> Extract(fs, name, base, w) == values[name]) {
      forall p | 0 <= p < Width(fs) && (Owner(fs, p).Constant? ==> !Owner(fs, p).dontcare)
        ensures Bit(w, base + p) <==> EncodedBit(fs, values, p)
      {
        if Owner(fs, p).Variable? {
          var name := Owner(fs, p).name;
          PiecesCover(fs, name, p);
          assert VariableRight(fs, name, base, w, values[name]);
        } else {
          assert Cares(fs, p);
        }
      }
    }
  }

  /** An encoding of the values, with zeros for the don't-care bits. */
  ghost function Assemble(fs: seq<Field>, values: map<string, nat>): nat
    requires FitsLayout(fs, values)
  {
    FromBits(seq(Width(fs), p requires 0 <= p < Width(fs) => EncodedBit(fs, values, p)))
  }

  /** Assembling and then decoding returns the values, whatever lies below a widened layout. */
  lemma AssembleThenDecode(fs: seq<Field>, values: map<string, nat>, base: nat, low: nat)
    requires FitsLayout(fs, values) && low < Pow2(base)
    ensures Assemble(fs, values) < Pow2(Width(fs))
    ensures var w := Shl(Assemble(fs, values), base) + low;
      PassesTest(fs, base, w) && forall name :: name in values ==> Extract(fs, name, base, w) == values[name]
  {
    hide PassesTest, Extract, FitsLayout, EncodedBit, Shl, Bit, Pow2, Width, Owner;
    var bits := seq(Width(fs), p requires 0 <= p < Width(fs) => EncodedBit(fs, values, p));
    var word := Assemble(fs, values);
    forall i: nat ensures Bit(word, i) <==> i < |bits| && bits[i] { FromBitsBit(bits, i); }
    BitsBounded(word, Width(fs));
    ShiftPlusLow(word, base, low);
    var w := Shl(word, base) + low;
    assert Encodes(fs, values, base, w) by {
      forall p | 0 <= p < Width(fs) ensures Bit(w, base + p) <==> EncodedBit(fs, values, p) {
        assert Bit(word, p) <==> bits[p];
      }
    }
    DecodesIffEncodes(fs, values, base, w);
  }

  lemma ShiftPlusLow(word: nat, base: nat, low: nat)
    requires low < Pow2(base)
    ensures forall p: nat :: Bit(Shl(word, base) + low, base + p) <==> Bit(word, p)
  {
    BoundedBits(low, base);
    forall i: nat ensures !(Bit(Shl(word, base), i) && Bit(low, i)) { ShlBit(word, base, i); }
    AndZero(Shl(word, base), low);
    DisjointSum(Shl(word, base), low);
    forall p: nat ensures Bit(Shl(word, base) + low, base + p) <==> Bit(word, p) {
      OrBit(Shl(word, base), low, base + p);
      ShlBit(word, base, base + p);
    }
  }

  // ----- enumeration of all encodings

  /** The bits outside the mask, highest first. */
  function FreeBits(mask: nat, n: nat): seq<nat> {
    if n == 0 then []
    else (if And(Pow2(n - 1), mask) == 0 then [n - 1] else []) + FreeBits(mask, n - 1)
  }

  /** The sums `itertools.product` yields when each bit is either clear or set, the last bit varying fastest. */
  function ProductSums(bits: seq<nat>): seq<nat> {
    if bits == [] then [0]
    else ProductSums(bits[1..]) + AddToAll(Pow2(bits[0]), ProductSums(bits[1..]))
  }

  function EnumerateAll(fs: seq<Field>): seq<nat> {
    AddToAll(ConstantValue(fs), ProductSums(FreeBits(ConstantMask(fs), Width(fs))))
  }

  ghost predicate Increasing(s: seq<nat>) {
    forall i, j :: 0 <= i < j < |s| ==> s[i] < s[j]
  }

  ghost predicate Avoids(s: nat, mask: nat) {
    forall i: nat :: !(Bit(s, i) && Bit(mask, i))
  }

  lemma ProductStep(mask: nat, n: nat)
    requires n > 0
    ensures var rest := ProductSums(FreeBits(mask, n - 1));
      ProductSums(FreeBits(mask, n)) == if Bit(mask, n - 1) then rest else rest + AddToAll(Pow2(n - 1), rest)
    ensures |FreeBits(mask, n)| == |FreeBits(mask, n - 1)| + BitValue(!Bit(mask, n - 1))
  {
    TestBit(mask, n - 1);
    var rest := FreeBits(mask, n - 1);
    if Bit(mask, n - 1) {
      assert FreeBits(mask, n) == rest;
    } else {
      assert FreeBits(mask, n)[1..] == rest;
    }
  }

  /** The sums over one more free bit: those below it and, if it is free, those with it. */
  lemma MemberStep(mask: nat, n: nat, s: nat)
    requires n > 0
    ensures var rest := ProductSums(FreeBits(mask, n - 1));
      s in ProductSums(FreeBits(mask, n)) <==>
        s in rest || (!Bit(mask, n - 1) && s >= Pow2(n - 1) && s - Pow2(n - 1) in rest)
  {
    hide ProductSums, FreeBits, AddToAll, Bit, Pow2;
    ProductStep(mask, n);
    AddToAllMember(Pow2(n - 1), ProductSums(FreeBits(mask, n - 1)), s);
  }

  lemma NoFreeSums(mask: nat, s: nat)
    ensures s in ProductSums(FreeBits(mask, 0)) <==> s < Pow2(0) && Avoids(s, mask)
  {
    if s == 0 { forall i: nat ensures !Bit(0, i) { ZeroBit(i); } }
  }

  /** The sums over the free bits are the n-bit numbers that avoid the mask, in order. */
  lemma {:induction false} FreeSums(mask: nat, n: nat, s: nat)
    ensures s in ProductSums(FreeBits(mask, n)) <==> s < Pow2(n) && Avoids(s, mask)
  {
    hide *;
    if n == 0 {
      NoFreeSums(mask, s);
    } else {
      DoublePow2(n);
      MemberStep(mask, n, s);
      FreeSums(mask, n - 1, s);
      if s >= Pow2(n - 1) {
        FreeSums(mask, n - 1, s - Pow2(n - 1));
        if s < Pow2(n) { AvoidsTop(mask, n - 1, s - Pow2(n - 1)); }
      }
    }
  }

  lemma AvoidsTop(mask: nat, n: nat, t: nat)
    requires t < Pow2(n)
    ensures Avoids(Pow2(n) + t, mask) <==> !Bit(mask, n) && Avoids(t, mask)
  {
    forall i: nat ensures Bit(Pow2(n) + t, i) <==> i == n || Bit(t, i) { TopBit(t, n, i); }
    TopBit(t, n, n);
  }

  lemma DoublePow2(n: nat)
    requires n > 0
    ensures Pow2(n) == 2 * Pow2(n - 1) && BitValue(true) == 1 && BitValue(false) == 0
  {
  }

  lemma ShiftedCopyIncreases(a: seq<nat>, b: seq<nat>, x: nat)
    requires Increasing(a) && |b| == |a|
    requires forall i :: 0 <= i < |a| ==> a[i] < x && b[i] == x + a[i]
    ensures Increasing(a + b)
  {
  }

  lemma NothingFree(mask: nat)
    ensures Increasing(ProductSums(FreeBits(mask, 0)))
    ensures |ProductSums(FreeBits(mask, 0))| == Pow2(|FreeBits(mask, 0)|)
  {
  }

  lemma {:induction false} FreeSumsIncrease(mask: nat, n: nat)
    ensures Increasing(ProductSums(FreeBits(mask, n)))
    ensures |ProductSums(FreeBits(mask, n))| == Pow2(|FreeBits(mask, n)|)
  {
    hide *;
    if n == 0 {
      NothingFree(mask);
    } else {
      var rest := ProductSums(FreeBits(mask, n - 1));
      ProductStep(mask, n);
      FreeSumsIncrease(mask, n - 1);
      AddToAllElements(Pow2(n - 1), rest);
      forall i | 0 <= i < |rest| ensures rest[i] < Pow2(n - 1) {
        assert rest[i] in rest;
        FreeSums(mask, n - 1, rest[i]);
      }
      ShiftedCopyIncreases(rest, AddToAll(Pow2(n - 1), rest), Pow2(n - 1));
      DoublePow2(|FreeBits(mask, n - 1)| + 1);
    }
  }

  /** The enumeration yields every word that passes the test once, in increasing order,
      2 to the number of free bits in all. */
  lemma EnumerationIsExact(fs: seq<Field>, w: nat)
    ensures w in EnumerateAll(fs) <==> w < Pow2(Width(fs)) && PassesTest(fs, 0, w)
    ensures Increasing(EnumerateAll(fs))
    ensures |EnumerateAll(fs)| == Pow2(|FreeBits(ConstantMask(fs), Width(fs))|)
  {
    var (mask, value, n) := (ConstantMask(fs), ConstantValue(fs), Width(fs));
    var sums := ProductSums(FreeBits(mask, n));
    hide ProductSums, FreeBits, Width, ConstantMask, ConstantValue, WrittenBit, Owner;
    FreeSumsIncrease(mask, n);
    assert PassesTest(fs, 0, w) <==> And(w, mask) == value;
    forall i: nat ensures Bit(value, i) ==> Bit(mask, i) && i < n {
      ConstantMaskBit(fs, i);
      ConstantValueBit(fs, i);
    }
    AddToAllMember(value, sums, w);
    AddToAllElements(value, sums);
    if w in EnumerateAll(fs) {
      FreeSums(mask, n, w - value);
      SumPassesTest(mask, value, n, w - value);
    }
    if w < Pow2(n) && PassesTest(fs, 0, w) {
      var s := TestSplits(mask, value, n, w);
      FreeSums(mask, n, s);
    }
  }

  lemma SumPassesTest(mask: nat, value: nat, n: nat, s: nat)
    requires forall i: nat :: Bit(value, i) ==> Bit(mask, i) && i < n
    requires s < Pow2(n) && Avoids(s, mask)
    ensures value + s < Pow2(n) && And(value + s, mask) == value
  {
    AndZero(value, s);
    DisjointSum(value, s);
    BoundedBits(s, n);
    var w := value + s;
    forall i: nat ensures Bit(w, i) <==> Bit(value, i) || Bit(s, i) { OrBit(value, s, i); }
    BitsBounded(w, n);
    forall i: nat ensures Bit(And(w, mask), i) <==> Bit(value, i) { AndBit(w, mask, i); }
    Extensionality(And(value + s, mask), value);
  }

  lemma TestSplits(mask: nat, value: nat, n: nat, w: nat) returns (s: nat)
    requires w < Pow2(n) && And(w, mask) == value
    ensures w == value + s && s < Pow2(n) && Avoids(s, mask)
  {
    var free := seq(n, i requires 0 <= i < n => Bit(w, i) && !Bit(mask, i));
    s := FromBits(free);
    BoundedBits(w, n);
    forall i: nat
      ensures Bit(s, i) <==> Bit(w, i) && !Bit(mask, i)
      ensures Bit(value, i) <==> Bit(w, i) && Bit(mask, i)
    {
      FromBitsBit(free, i);
      AndBit(w, mask, i);
    }
    AndZero(value, s);
    DisjointSum(value, s);
    forall i: nat ensures Bit(value + s, i) <==> Bit(w, i) { OrBit(value, s, i); }
    Extensionality(value + s, w);
  }

  // ----- the objects

  class FieldShift {
    var components: map<int, nat>
    var len: nat
    var shl: int

    constructor ()
      ensures components == map[] && len == 0 && shl == 0
    {
      components, len, shl := map[], 0, 0;
    }

    method Add(srclobit: nat, bitlen: nat, dstlobit: nat)
      modifies this
      ensures components == AddComponent(old(components), srclobit, bitlen, dstlobit)
      ensures len == old(len) + bitlen && shl == old(shl)
    {
      var distance := dstlobit - srclobit;
      var srcmask := Mask(srclobit, bitlen);
      if distance !in components {
        components := components[distance := srcmask];
      } else {
        var prevmask := components[distance];
        components := components[distance := Or(srcmask, prevmask)];
      }
      len := len + bitlen;
    }

    method SetShl(shlval: int)
      modifies this`shl
      ensures shl == shlval
    {
      shl := shlval;
    }

    /** The mask of a field that moves nothing; None stands for a failed assertion. */
    method StaticMask() returns (r: Option<nat>)
      ensures r == if components.Keys == {0} then Some(components[0]) else None
    {
      if |components| != 1 {
        assert |components.Keys| != |{0}|;
        return None;
      }
      if 0 !in components { return None; }
      SingleKey(components);
      return Some(components[0]);
    }
  }

  lemma SingleKey(m: map<int, nat>)
    requires |m| == 1 && 0 in m
    ensures m.Keys == {0}
  {
    assert |m.Keys - {0}| == 0;
    assert m.Keys == m.Keys - {0} + {0};
  }

  /** Sort the pieces of one variable and add them one above the other. */
  method CompileVariable(slots: seq<Slot>) returns (v: FieldShift)
    ensures fresh(v) && v.shl == 0
    ensures v.components == Components(SortByPosition(slots)) && v.len == TotalWidth(SortByPosition(slots))
  {
    v := new FieldShift();
    var sorted := SortByPosition(slots);
    var dstpos := 0;
    for i := 0 to |sorted|
      invariant fresh(v) && v.shl == 0
      invariant dstpos == v.len == TotalWidth(sorted[..i])
      invariant v.components == Components(sorted[..i])
    {
      assert sorted[..i + 1][..i] == sorted[..i];
      v.Add(sorted[i].lo, sorted[i].width, dstpos);
      dstpos := dstpos + sorted[i].width;
    }
    assert sorted[..|sorted|] == sorted;
  }

  ghost function VariableNames(fs: seq<Field>): set<string> {
    set f | f in fs && f.Variable? :: f.name
  }

  class Bitfield {
    const fields: seq<Field>
    const bitlen: nat
    const mask: nat
    const value: nat
    const variables: map<string, FieldShift>
    var widento: Option<int>

    constructor (fields: seq<Field>, bitlen: nat, mask: nat, value: nat, variables: map<string, FieldShift>)
      ensures this.fields == fields && this.bitlen == bitlen && this.mask == mask && this.value == value
      ensures this.variables == variables && widento == None
    {
      this.fields, this.bitlen, this.mask, this.value := fields, bitlen, mask, value;
      this.variables, this.widento := variables, None;
    }

    /** The object agrees with its layout; `fields` are highest bits first, as written. */
    ghost predicate Valid()
      reads this, variables.Values
    {
      var fs := Reverse(fields);
      && bitlen == Width(fs) && mask == ConstantMask(fs) && value == ConstantValue(fs)
      && variables.Keys == VariableNames(fs)
      && (forall n :: n in variables ==> Compiled(fs, n, variables[n].components, variables[n].len))
      && (forall n :: n in variables && widento == None ==> variables[n].shl == 0)
      && (forall n, m :: n in variables && m in variables && n != m ==> variables[n] != variables[m])
    }

    function WidenShiftLeft(): int
      requires Valid()
      reads this, variables.Values
    {
      if widento == None then 0 else widento.value - bitlen
    }

    /** `constantmask`; None is the exception that a negative shift raises. */
    function ConstantMaskShifted(): (m: Option<nat>)
      requires Valid()
      reads this, variables.Values
      ensures m.Some? <==> WidenShiftLeft() >= 0
      ensures m.Some? ==> m.value == Shl(ConstantMask(Reverse(fields)), WidenShiftLeft())
    {
      if WidenShiftLeft() < 0 then None else Some(Shl(mask, WidenShiftLeft()))
    }

    /** `constantcmp`, with the same exception. */
    function ConstantCmp(): (c: Option<nat>)
      requires Valid()
      reads this, variables.Values
      ensures c.Some? <==> WidenShiftLeft() >= 0
      ensures c.Some? ==> forall w: nat ::
        And(w, ConstantMaskShifted().value) == c.value <==> PassesTest(Reverse(fields), WidenShiftLeft(), w)
    {
      if WidenShiftLeft() < 0 then None else Some(Shl(value, WidenShiftLeft()))
    }

    method Widen(to: int)
      requires Valid()
      modifies this
      ensures Valid() && widento == Some(to)
    {
      widento := Some(to);
    }

    /** `bitfield[varname]`: None is the KeyError. The variable is told the shift of a widened layout,
        so its expression extracts the variable from the widened word. */
    method GetItem(varname: string) returns (r: Option<FieldShift>)
      requires Valid()
      modifies variables.Values`shl
      ensures Valid() && WidenShiftLeft() == old(WidenShiftLeft())
      ensures r == if varname in variables then Some(variables[varname]) else None
      ensures r.Some? ==> r.value.shl == WidenShiftLeft()
      ensures r.Some? && WidenShiftLeft() >= 0 ==>
        forall w: nat :: EvalOr(OrigExpression(r.value.components, r.value.shl), w) ==
          Extract(Reverse(fields), varname, WidenShiftLeft(), w)
    {
      if varname !in variables { return None; }
      var variable := variables[varname];
      assert Compiled(Reverse(fields), varname, variable.components, variable.len);
      if widento != None {
        variable.SetShl(widento.value - bitlen);
      }
      return Some(variable);
    }
  }

  ghost predicate Compiled(fs: seq<Field>, name: string, components: map<int, nat>, len: nat) {
    components == Components(Pieces(fs, name)) && len == TotalWidth(Pieces(fs, name))
  }

  function CountsImplicit(f: Field, n: string): nat {
    BitValue(f.Variable? && f.name == n && f.position == None)
  }

  lemma CountStep(low: seq<Field>, i: nat)
    requires i <= |low|
    ensures forall n :: i == 0 ==> ImplicitCount(low[..i], n) == 0
    ensures forall n ::
      i < |low| ==> ImplicitCount(low[..i + 1], n) == ImplicitCount(low[..i], n) + CountsImplicit(low[i], n)
  {
    if i < |low| { assert low[..i + 1][..i] == low[..i]; }
  }

  /** Give every variable field a position: its own, or how many implicit ones of its name came before. */
  method AssignPositions(low: seq<Field>) returns (positions: seq<nat>)
    ensures |positions| == |low|
    ensures forall i :: 0 <= i < |low| && low[i].Variable? ==>
      positions[i] == low[i].position.GetOr(ImplicitCount(low[..i], low[i].name))
  {
    hide ImplicitCount;
    positions := [];
    var counts: map<string, nat> := map[];
    CountStep(low, 0);
    for i := 0 to |low|
      invariant |positions| == i
      invariant forall n :: (if n in counts then counts[n] else 0) == ImplicitCount(low[..i], n)
      invariant forall k :: 0 <= k < i && low[k].Variable? ==>
        positions[k] == low[k].position.GetOr(ImplicitCount(low[..k], low[k].name))
    {
      var f := low[i];
      CountStep(low, i);
      if f.Variable? && f.position == None {
        var newpos := if f.name in counts then counts[f.name] else 0;
        positions := positions + [newpos];
        counts := counts[f.name := newpos + 1];
      } else {
        positions := positions + [if f.Variable? then f.position.value else 0];
      }
    }
  }

  lemma LayoutNil()
    ensures Width([]) == 0 && VariableNames([]) == {}
    ensures forall n :: SlotsOf([], n) == []
  {
  }

  function NewSlot(low: seq<Field>, i: nat, n: string): seq<Slot>
    requires i < |low|
  {
    if low[i].Variable? && low[i].name == n
    then [Slot(Width(low[..i]), low[i].iterations, low[i].position.GetOr(ImplicitCount(low[..i], n)))] else []
  }

  /** One more field on top of the first i. */
  lemma LayoutStep(low: seq<Field>, i: nat)
    requires i < |low|
    ensures Width(low[..i + 1]) == Width(low[..i]) + low[i].Width()
    ensures VariableNames(low[..i + 1]) ==
      VariableNames(low[..i]) + if low[i].Variable? then {low[i].name} else {}
    ensures forall n :: SlotsOf(low[..i + 1], n) == SlotsOf(low[..i], n) + NewSlot(low, i, n)
  {
    assert low[..i + 1] == low[..i] + [low[i]] && low[..i + 1][..i] == low[..i];
  }

  /** The pieces of each variable, in word order, with the names in the order they first appear. */
  method GroupVariables(low: seq<Field>, positions: seq<nat>)
    returns (groups: map<string, seq<Slot>>, names: seq<string>, width: nat)
    requires |positions| == |low|
    requires forall i :: 0 <= i < |low| && low[i].Variable? ==>
      positions[i] == low[i].position.GetOr(ImplicitCount(low[..i], low[i].name))
    ensures groups.Keys == VariableNames(low) && (forall n :: n in groups <==> n in names)
    ensures forall n :: n in groups ==> groups[n] == SlotsOf(low, n)
    ensures width == Width(low)
  {
    hide SlotsOf, VariableNames, Width;
    groups, names, width := map[], [], 0;
    assert low[..0] == [];
    LayoutNil();
    for i := 0 to |low|
      invariant width == Width(low[..i])
      invariant groups.Keys == VariableNames(low[..i])
      invariant forall n :: n in groups <==> n in names
      invariant forall n :: (if n in groups then groups[n] else []) == SlotsOf(low[..i], n)
    {
      var f := low[i];
      LayoutStep(low, i);
      if f.Variable? {
        var slot := Slot(width, f.iterations, positions[i]);
        if f.name !in groups { names := names + [f.name]; }
        groups := groups[f.name := (if f.name in groups then groups[f.name] else []) + [slot]];
      }
      width := width + f.Width();
    }
    assert low[..|low|] == low;
  }

  /** The constant mask and value; None when no constant bit is significant. */
  method CollectConstants(low: seq<Field>) returns (r: Option<(nat, nat)>)
    ensures r == if HasConstant(low) then Some((ConstantMask(low), ConstantValue(low))) else None
  {
    var constantmask := new FieldShift();
    var value, shiftpos := 0, 0;
    for i := 0 to |low|
      invariant fresh(constantmask)
      invariant shiftpos == Width(low[..i]) && value == ConstantValue(low[..i])
      invariant constantmask.components ==
        if HasConstant(low[..i]) then map[0 := ConstantMask(low[..i])] else map[]
      invariant !HasConstant(low[..i]) ==> ConstantMask(low[..i]) == 0
    {
      var f := low[i];
      assert low[..i + 1] == low[..i] + [f] && low[..i + 1][..i] == low[..i];
      if f.Constant? && !f.dontcare {
        assert f in low[..i + 1];
        constantmask.Add(shiftpos, |f.bits|, shiftpos);
        value := Or(value, Shl(Value(f.bits), shiftpos));
      }
      shiftpos := shiftpos + f.Width();
    }
    assert low[..|low|] == low;
    var mask := constantmask.StaticMask();
    if mask.Some? { return Some((mask.value, value)); }
    return None;
  }

  /** One compiled variable per name. */
  method CompileVariables(groups: map<string, seq<Slot>>, names: seq<string>)
    returns (variables: map<string, FieldShift>)
    requires forall n :: n in groups <==> n in names
    ensures variables.Keys == groups.Keys && fresh(variables.Values)
    ensures forall n :: n in variables ==>
      && variables[n].shl == 0
      && variables[n].components == Components(SortByPosition(groups[n]))
      && variables[n].len == TotalWidth(SortByPosition(groups[n]))
    ensures forall n, m :: n in variables && m in variables && n != m ==> variables[n] != variables[m]
  {
    variables := map[];
    for i := 0 to |names|
      invariant variables.Keys <= groups.Keys
      invariant forall k :: 0 <= k < i ==> names[k] in variables
      invariant forall n :: n in variables ==>
        && fresh(variables[n]) && variables[n].shl == 0
        && variables[n].components == Components(SortByPosition(groups[n]))
        && variables[n].len == TotalWidth(SortByPosition(groups[n]))
      invariant forall n, m :: n in variables && m in variables && n != m ==> variables[n] != variables[m]
    {
      var v := CompileVariable(groups[names[i]]);
      variables := variables[names[i] := v];
    }
  }

  /** `Bitfield(bfstring)` from the parsed fields; None is the assertion that fails without a
      significant constant. */
  method MakeBitfield(fields: seq<Field>) returns (r: Option<Bitfield>)
    ensures r == None <==> !HasConstant(Reverse(fields))
    ensures r.Some? ==> fresh(r.value) && fresh(r.value.variables.Values)
    ensures r.Some? ==> r.value.Valid() && r.value.fields == fields && r.value.widento == None
  {
    var low := Reverse(fields);
    var positions := AssignPositions(low);
    var groups, names, width := GroupVariables(low, positions);
    var constants := CollectConstants(low);
    if constants == None { return None; }
    var variables := CompileVariables(groups, names);
    assert forall n :: n in variables ==> Compiled(low, n, variables[n].components, variables[n].len);
    var b := new Bitfield(fields, width, constants.value.0, constants.value.1, variables);
    return Some(b);
  }

  /** An opcode's layout: 16 or 32 bits, matched against 32-bit words whose upper half is read first. */
  method MakeOpcode(fields: seq<Field>) returns (r: Option<Bitfield>)
    ensures r.Some? <==> HasConstant(Reverse(fields)) && Width(Reverse(fields)) in {16, 32}
    ensures r.Some? ==> fresh(r.value) && fresh(r.value.variables.Values)
    ensures r.Some? ==> r.value.Valid() && r.value.fields == fields && r.value.widento == Some(32)
  {
    var b := MakeBitfield(fields);
    if b == None || b.value.bitlen !in {16, 32} { return None; }
    b.value.Widen(32);
    return b;
  }
}
