/**
 The unions that xdrc generates: the numbering of fields in xdrc/parse.yy, and the
 emitted code of xdrc/gen_hh.cc as small syntax trees with their meaning.
 */
module UnionGen {
  import opened Options
  import opened Bytes
  import opened Xdr

  /** What the grammar and the C++ compiler see to: every arm has a case, at most one
      is the default, and no label occurs in two arms. */
  predicate Distinct(arms: seq<Arm>) {
    && (forall i :: 0 <= i < |arms| ==> arms[i].labels != [] || arms[i].isDefault)
    && (forall i, j :: 0 <= i < j < |arms| ==> !(arms[i].isDefault && arms[j].isDefault))
    && (forall i, j :: 0 <= i < j < |arms| ==> Disjoint(arms[i].labels, arms[j].labels))
  }

  predicate Disjoint(a: seq<Word>, b: seq<Word>) {
    forall w :: w in a ==> w !in b
  }

  // ----- field numbers ------------------------------------------------------------

  /** The fields among the first `n` arms. */
  function Fields(arms: seq<Arm>, n: nat): nat
    requires n <= |arms|
  {
    if n == 0 then 0 else Fields(arms, n - 1) + if arms[n - 1].body.Some? then 1 else 0
  }

  /** The number of arm `i`: 0 for a void one, otherwise its rank among the fields. */
  function Number(arms: seq<Arm>, i: nat): nat
    requires i < |arms|
  {
    if arms[i].body.None? then 0 else Fields(arms, i + 1)
  }

  method NumberFields(arms: seq<Arm>) returns (numbers: seq<nat>)
    ensures |numbers| == |arms| && forall i :: 0 <= i < |arms| ==> numbers[i] == Number(arms, i)
  {
    var next := 0;
    numbers := [];
    for i := 0 to |arms|
      invariant |numbers| == i && next == Fields(arms, i)
      invariant forall j :: 0 <= j < i ==> numbers[j] == Number(arms, j)
    {
      if arms[i].body.None? {
        numbers := numbers + [0];
      } else {
        next := next + 1;
        numbers := numbers + [next];
      }
    }
  }

  lemma {:induction false} FieldsGrow(arms: seq<Arm>, i: nat, n: nat)
    requires i <= n <= |arms|
    ensures Fields(arms, i) <= Fields(arms, n)
    decreases n
  {
    if i < n {
      FieldsGrow(arms, i, n - 1);
    }
  }

  /** A positive number belongs to one arm, which is not void. */
  lemma NumberIdentifies(arms: seq<Arm>, i: nat, j: nat)
    requires i < |arms| && j < |arms| && Number(arms, i) == Number(arms, j)
    ensures arms[i].body.Some? <==> Number(arms, i) > 0
    ensures i == j || (arms[i].body.None? && arms[j].body.None?)
  {
    FieldsGrow(arms, 0, i);
    FieldsGrow(arms, 0, j);
    if i < j {
      FieldsGrow(arms, i + 1, j);
    } else if j < i {
      FieldsGrow(arms, j + 1, i);
    }
  }

  // ----- _xdr_field_number: a chain of conditional expressions ----------------------

  datatype Branch = Branch(labels: seq<Word>, result: int)

  datatype Chain = Chain(branches: seq<Branch>, otherwise: int)

  /** The value of `which == l || ... ? result : ... : otherwise`. */
  function Eval(branches: seq<Branch>, otherwise: int, which: Word): int {
    if branches == [] then otherwise
    else if which in branches[0].labels then branches[0].result
    else Eval(branches[1..], otherwise, which)
  }

  lemma {:induction false} EvalAppend(branches: seq<Branch>, b: Branch, otherwise: int, which: Word)
    ensures Eval(branches + [b], otherwise, which)
      == Eval(branches, if which in b.labels then b.result else otherwise, which)
  {
    if branches != [] {
      assert (branches + [b])[1..] == branches[1..] + [b];
      EvalAppend(branches[1..], b, otherwise, which);
    } else {
      assert (branches + [b])[1..] == [];
    }
  }

  /** The number that the arms before `n` other than the default one give to `which`. */
  function Selected(arms: seq<Arm>, n: nat, which: Word, otherwise: int): int
    requires n <= |arms|
  {
    if n == 0 then otherwise
    else
      var hit := !arms[n - 1].isDefault && which in arms[n - 1].labels;
      Selected(arms, n - 1, which, if hit then Number(arms, n - 1) else otherwise)
  }

  ghost predicate Follows(branches: seq<Branch>, arms: seq<Arm>, n: nat)
    requires n <= |arms|
  {
    forall which: Word, otherwise: int :: Eval(branches, otherwise, which) == Selected(arms, n, which, otherwise)
  }

  lemma FollowsNext(branches: seq<Branch>, arms: seq<Arm>, n: nat)
    requires n < |arms| && Follows(branches, arms, n)
    ensures if arms[n].isDefault then Follows(branches, arms, n + 1)
      else Follows(branches + [Branch(arms[n].labels, Number(arms, n))], arms, n + 1)
  {
    if !arms[n].isDefault {
      var b := Branch(arms[n].labels, Number(arms, n));
      forall which: Word, otherwise: int
        ensures Eval(branches + [b], otherwise, which) == Selected(arms, n + 1, which, otherwise)
      {
        EvalAppend(branches, b, otherwise, which);
      }
    }
  }

  /** The number of the field that `which` selects, -1 if it selects no arm. */
  function FieldNumber(arms: seq<Arm>, which: Word): int {
    var i := Pick(arms, which);
    if i == -1 then -1 else Number(arms, i)
  }

  /** union_function, for the field numbers: the loop leaves the default arm for last,
      whatever its other labels.  The chain numbers the arm that the tag selects. */
  method EmitFieldNumber(arms: seq<Arm>) returns (chain: Chain)
    requires Distinct(arms)
    ensures forall which: Word :: Eval(chain.branches, chain.otherwise, which) == FieldNumber(arms, which)
  {
    var numbers := NumberFields(arms);
    var def := -1;
    var branches := [];
    for i := 0 to |arms|
      invariant Follows(branches, arms, i)
      invariant def == DefaultBefore(arms, i)
    {
      FollowsNext(branches, arms, i);
      if arms[i].isDefault {
        def := i;
      } else {
        branches := branches + [Branch(arms[i].labels, numbers[i])];
      }
    }
    chain := Chain(branches, if def == -1 then -1 else numbers[def]);
    forall which: Word ensures Eval(branches, chain.otherwise, which) == FieldNumber(arms, which) {
      SelectedIsPicked(arms, which);
    }
  }

  /** The last default arm before `n`. */
  function DefaultBefore(arms: seq<Arm>, n: nat): (d: int)
    requires n <= |arms|
    ensures -1 <= d < n
  {
    if n == 0 then -1 else if arms[n - 1].isDefault then n - 1 else DefaultBefore(arms, n - 1)
  }

  lemma {:induction false} PickLabelFinds(arms: seq<Arm>, which: Word, from: nat)
    requires from <= |arms|
    ensures var k := PickLabel(arms, which, from);
      if k == -1 then forall j :: from <= j < |arms| ==> which !in arms[j].labels else which in arms[k].labels
    decreases |arms| - from
  {
    if from < |arms| {
      PickLabelFinds(arms, which, from + 1);
    }
  }

  lemma {:induction false} PickDefaultFinds(arms: seq<Arm>, from: nat)
    requires from <= |arms|
    ensures var k := PickDefault(arms, from);
      if k == -1 then forall j :: from <= j < |arms| ==> !arms[j].isDefault else arms[k].isDefault
    decreases |arms| - from
  {
    if from < |arms| {
      PickDefaultFinds(arms, from + 1);
    }
  }

  lemma {:induction false} DefaultBeforeFinds(arms: seq<Arm>, n: nat)
    requires n <= |arms|
    ensures var d := DefaultBefore(arms, n);
      if d == -1 then forall j :: 0 <= j < n ==> !arms[j].isDefault else arms[d].isDefault
  {
    if n > 0 {
      DefaultBeforeFinds(arms, n - 1);
    }
  }

  predicate Hits(arm: Arm, which: Word) {
    !arm.isDefault && which in arm.labels
  }

  /** At most one arm answers to `which`: the selection is that of arm `k`, or `otherwise`. */
  lemma {:induction false} SelectedOnly(arms: seq<Arm>, n: nat, which: Word, otherwise: int, k: int)
    requires n <= |arms| && -1 <= k < |arms|
    requires forall j :: 0 <= j < |arms| && Hits(arms[j], which) ==> j == k
    ensures Selected(arms, n, which, otherwise)
      == if 0 <= k < n && Hits(arms[k], which) then Number(arms, k) else otherwise
  {
    if n > 0 {
      var hit := Hits(arms[n - 1], which);
      SelectedOnly(arms, n - 1, which, if hit then Number(arms, n - 1) else otherwise, k);
    }
  }

  lemma {:induction false} DefaultIsUnique(arms: seq<Arm>)
    requires Distinct(arms)
    ensures DefaultBefore(arms, |arms|) == PickDefault(arms, 0)
    ensures forall j :: 0 <= j < |arms| && arms[j].isDefault ==> j == PickDefault(arms, 0)
  {
    DefaultBeforeFinds(arms, |arms|);
    PickDefaultFinds(arms, 0);
  }

  lemma {:induction false} LabelIsUnique(arms: seq<Arm>, which: Word)
    requires Distinct(arms)
    ensures forall j :: 0 <= j < |arms| && which in arms[j].labels ==> j == PickLabel(arms, which, 0)
  {
    var k := PickLabel(arms, which, 0);
    PickLabelFinds(arms, which, 0);
    forall j | 0 <= j < |arms| && which in arms[j].labels ensures j == k {
      assert k < j ==> Disjoint(arms[k].labels, arms[j].labels);
      assert j < k ==> Disjoint(arms[j].labels, arms[k].labels);
    }
  }

  lemma {:induction false} SelectedIsPicked(arms: seq<Arm>, which: Word)
    requires Distinct(arms)
    ensures var d := DefaultBefore(arms, |arms|);
      Selected(arms, |arms|, which, if d == -1 then -1 else Number(arms, d)) == FieldNumber(arms, which)
  {
    var d, k := DefaultBefore(arms, |arms|), PickLabel(arms, which, 0);
    DefaultIsUnique(arms);
    LabelIsUnique(arms, which);
    PickLabelFinds(arms, which, 0);
    SelectedOnly(arms, |arms|, which, if d == -1 then -1 else Number(arms, d), k);
  }

  // ----- _xdr_with_mem_ptr: a switch statement --------------------------------------

  /** The body of the emitted switch: labels, and for each arm the visit of its field (or
      nothing, if it is void) followed by `return true`. */
  datatype Stmt = Case(tag: Word) | DefaultLabel | Visit(arm: nat)

  /** The arm that is visited when control is at the front of `body`; -1 at its end. */
  function Landing(body: seq<Stmt>): int {
    if body == [] then -1 else if body[0].Visit? then body[0].arm else Landing(body[1..])
  }

  /** The arm that is visited after a jump to `target`; -1 if it is not there. */
  function Jump(body: seq<Stmt>, target: Stmt): int {
    if body == [] then -1 else if body[0] == target then Landing(body) else Jump(body[1..], target)
  }

  /** switch (which): jump to the label, else to the default, else past the end. */
  function Exec(body: seq<Stmt>, which: Word): int {
    var i := Jump(body, Case(which));
    if i != -1 then i else Jump(body, DefaultLabel)
  }

  function CaseLabels(labels: seq<Word>): (s: seq<Stmt>)
    ensures |s| == |labels| && forall i :: 0 <= i < |s| ==> s[i] == Case(labels[i])
  {
    if labels == [] then [] else [Case(labels[0])] + CaseLabels(labels[1..])
  }

  /** The statements for one arm. */
  function Block(arm: Arm, i: nat): seq<Stmt> {
    CaseLabels(arm.labels) + (if arm.isDefault then [DefaultLabel] else []) + [Visit(i)]
  }

  lemma {:induction false} LandingInBlock(s: seq<Stmt>, i: nat)
    requires forall j :: 0 <= j < |s| ==> !s[j].Visit?
    ensures Landing(s + [Visit(i)]) == i
  {
    if s != [] {
      assert (s + [Visit(i)])[1..] == s[1..] + [Visit(i)];
      LandingInBlock(s[1..], i);
    }
  }

  lemma {:induction false} JumpInBlock(s: seq<Stmt>, i: nat, target: Stmt)
    requires forall j :: 0 <= j < |s| ==> !s[j].Visit?
    requires !target.Visit?
    ensures Jump(s + [Visit(i)], target) == if target in s then i else -1
  {
    if s != [] {
      assert (s + [Visit(i)])[1..] == s[1..] + [Visit(i)];
      LandingInBlock(s, i);
      JumpInBlock(s[1..], i, target);
    } else {
      assert ([] + [Visit(i)])[1..] == [];
    }
  }

  /** Every jump into an earlier block stays there, because it ends with a visit. */
  lemma {:induction false} LandingAppend(s: seq<Stmt>, t: seq<Stmt>)
    requires s != [] && s[|s| - 1].Visit?
    ensures Landing(s + t) == Landing(s) != -1
  {
    if !s[0].Visit? {
      assert (s + t)[1..] == s[1..] + t;
      LandingAppend(s[1..], t);
    }
  }

  lemma {:induction false} JumpAppend(s: seq<Stmt>, t: seq<Stmt>, target: Stmt)
    requires s == [] || s[|s| - 1].Visit?
    ensures Jump(s + t, target) == if Jump(s, target) != -1 then Jump(s, target) else Jump(t, target)
  {
    if s == [] {
      assert s + t == t;
    } else {
      assert (s + t)[1..] == s[1..] + t;
      LandingAppend(s, t);
      JumpAppend(s[1..], t, target);
    }
  }

  /** The switch over the first `n` arms. */
  function Body(arms: seq<Arm>, n: nat): (s: seq<Stmt>)
    requires n <= |arms|
    ensures s == [] || s[|s| - 1].Visit?
  {
    if n == 0 then [] else Body(arms, n - 1) + Block(arms[n - 1], n - 1)
  }

  lemma JumpToBlock(arm: Arm, i: nat, which: Word)
    ensures Jump(Block(arm, i), Case(which)) == if which in arm.labels then i else -1
    ensures Jump(Block(arm, i), DefaultLabel) == if arm.isDefault then i else -1
  {
    var s := CaseLabels(arm.labels) + (if arm.isDefault then [DefaultLabel] else []);
    JumpInBlock(s, i, Case(which));
    JumpInBlock(s, i, DefaultLabel);
    if which in arm.labels {
      var j :| 0 <= j < |arm.labels| && arm.labels[j] == which;
      assert s[j] == Case(which);
    }
    if arm.isDefault {
      assert s[|arm.labels|] == DefaultLabel;
    }
  }

  /** A jump goes to the first of the first `n` arms with the label. */
  lemma {:induction false} JumpToLabel(arms: seq<Arm>, n: nat, which: Word)
    requires n <= |arms|
    ensures var k := PickLabel(arms, which, 0); Jump(Body(arms, n), Case(which)) == if k < n then k else -1
  {
    if n > 0 {
      JumpToLabel(arms, n - 1, which);
      JumpToBlock(arms[n - 1], n - 1, which);
      JumpAppend(Body(arms, n - 1), Block(arms[n - 1], n - 1), Case(which));
      PickFirst(arms, which, 0);
      PickLabelFinds(arms, which, 0);
    }
  }

  lemma {:induction false} JumpToDefault(arms: seq<Arm>, n: nat)
    requires n <= |arms|
    ensures var k := PickDefault(arms, 0); Jump(Body(arms, n), DefaultLabel) == if k < n then k else -1
  {
    if n > 0 {
      JumpToDefault(arms, n - 1);
      JumpToBlock(arms[n - 1], n - 1, 0);
      JumpAppend(Body(arms, n - 1), Block(arms[n - 1], n - 1), DefaultLabel);
      PickFirst(arms, 0, 0);
      PickDefaultFinds(arms, 0);
    }
  }

  lemma {:induction false} PickFirst(arms: seq<Arm>, which: Word, from: nat)
    requires from <= |arms|
    ensures var k := PickLabel(arms, which, from);
      forall j :: from <= j < |arms| && (k == -1 || j < k) ==> which !in arms[j].labels
    ensures var k := PickDefault(arms, from);
      forall j :: from <= j < |arms| && (k == -1 || j < k) ==> !arms[j].isDefault
    decreases |arms| - from
  {
    PickLabelFinds(arms, which, from);
    PickDefaultFinds(arms, from);
    if from < |arms| {
      PickFirst(arms, which, from + 1);
    }
  }

  method EmitArm(arm: Arm, i: nat) returns (block: seq<Stmt>)
    ensures block == Block(arm, i)
  {
    block := [];
    for c := 0 to |arm.labels|
      invariant block == CaseLabels(arm.labels)[..c]
    {
      block := block + [Case(arm.labels[c])];
    }
    if arm.isDefault {
      block := block + [DefaultLabel];
    }
    block := block + [Visit(i)];
  }

  /** The loops that emit the switch: executing it visits the arm that the tag selects,
      and returns false (here -1) when it selects none. */
  method EmitWithMemPtr(arms: seq<Arm>) returns (body: seq<Stmt>)
    ensures forall which: Word :: Exec(body, which) == Pick(arms, which)
  {
    body := [];
    for i := 0 to |arms|
      invariant body == Body(arms, i)
    {
      var block := EmitArm(arms[i], i);
      body := body + block;
    }
    forall which: Word ensures Exec(body, which) == Pick(arms, which) {
      JumpToLabel(arms, |arms|, which);
      JumpToDefault(arms, |arms|);
    }
  }

  /** For every tag, the emitted chain numbers the arm that the emitted switch visits. */
  method EmitBoth(arms: seq<Arm>) returns (chain: Chain, body: seq<Stmt>)
    requires Distinct(arms)
    ensures forall which: Word :: var i := Exec(body, which);
      -1 <= i < |arms| && Eval(chain.branches, chain.otherwise, which) == if i == -1 then -1 else Number(arms, i)
  {
    chain := EmitFieldNumber(arms);
    body := EmitWithMemPtr(arms);
    forall which: Word ensures Exec(body, which) == Pick(arms, which) && Eval(chain.branches, chain.otherwise, which) == FieldNumber(arms, which) {
    }
  }
}
