/** Objects of the union classes that xdrc emits: which member of the C++ union is alive. */
module UnionObject {
  import opened Options
  import opened Bytes
  import opened Sequences
  import opened Xdr
  import opened Codec
  import opened Sizes
  import opened UnionGen
  import opened Get

  /** The arm whose field is alive under a tag. */
  function LiveArm(arms: seq<Arm>, tag: Word): Option<nat> {
    var i := Pick(arms, tag);
    if i == -1 || arms[i].body.None? then None else Some(i)
  }

  /** Tags with the same field number have the same field alive. */
  lemma SameNumberSameField(arms: seq<Arm>, a: Word, b: Word)
    ensures FieldNumber(arms, a) == FieldNumber(arms, b) <==>
      (Pick(arms, a) == -1 <==> Pick(arms, b) == -1) && LiveArm(arms, a) == LiveArm(arms, b)
  {
    var i, j := Pick(arms, a), Pick(arms, b);
    if i != -1 && j != -1 && Number(arms, i) == Number(arms, j) {
      NumberIdentifies(arms, i, j);
    }
    if i != -1 {
      NumberIdentifies(arms, i, i);
    }
    if j != -1 {
      NumberIdentifies(arms, j, j);
    }
  }

  predicate Declared(defs: seq<Type>, u: Type) {
    WellFormed(defs) && Closed(u, |defs|) && u.Union?
  }

  /** A new object with the given tag. */
  function New(defs: seq<Type>, u: Type, tag: Word): Value
    requires Declared(defs, u)
  {
    VUnion(tag, DefaultParts(defs, u, tag, 0))
  }

  /** It is written as the tag and zeros. */
  lemma {:induction false} NewIsZero(defs: seq<Type>, u: Type, tag: Word)
    requires Declared(defs, u)
    ensures var s := Encode(defs, u, New(defs, u, tag)); 4 <= |s| && s[..4] == Be32(tag) && AllZero(s[4..])
  {
    var v := New(defs, u, tag);
    assert From(v.Parts(), 0) == DefaultParts(defs, u, tag, 0);
    DefaultPartsAreZero(defs, u, v, tag, 0);
    assert Encode(defs, u, v) == Be32(tag) + EncodeFrom(defs, u, v, 0);
  }

  /** Setting the tag keeps the field if it stays alive, and otherwise makes a new one. */
  function Retagged(defs: seq<Type>, u: Type, v: Value, tag: Word): Value
    requires Declared(defs, u) && v.VUnion?
  {
    if FieldNumber(u.arms, tag) == FieldNumber(u.arms, v.tag) then VUnion(tag, v.parts) else New(defs, u, tag)
  }

  /** What the decoder makes of a union before it decodes the field is what setting the
      tag does. */
  lemma PreparedIsRetagged(defs: seq<Type>, u: Type, v: Value, tag: Word)
    requires Declared(defs, u) && PartsShaped(defs, u, v) && Pick(u.arms, tag) != -1
    ensures Retagged(defs, u, v, tag) == VUnion(tag, Prepared(defs, u, tag, v))
  {
    SameNumberSameField(u.arms, tag, v.tag);
    if FieldNumber(u.arms, tag) != FieldNumber(u.arms, v.tag) && Field(u.arms, tag).Some? {
      PartRefers(u, tag, 0, |defs|);
      assert DefaultParts(defs, u, tag, 1) == [];
    }
  }

  class Object {
    const defs: seq<Type>
    const u: Type
    const signed: bool            // whether _xdr_case_type is
    var tag: Word
    var field: Value              // the storage that the members share
    ghost var built: Option<nat>  // the arm whose member has been constructed in it

    ghost predicate Valid()
      reads this
    {
      Declared(defs, u) && built == LiveArm(u.arms, tag)
    }

    /** The value that the object represents. */
    ghost function Abs(): Value
      reads this
    {
      VUnion(tag, if built.Some? then [field] else [])
    }

    /** field_constructor. */
    method Build(i: nat, v: Value)
      requires built == None
      modifies this`field, this`built
      ensures built == Some(i) && field == v
    {
      field, built := v, Some(i);
    }

    /** field_destructor. */
    method Raze(ghost i: nat)
      requires built == Some(i)
      modifies this`built
      ensures built == None
    {
      built := None;
    }

    /** field_assigner. */
    method Overwrite(ghost i: nat, v: Value)
      requires built == Some(i)
      modifies this`field
      ensures field == v
    {
      field := v;
    }

    /** _xdr_with_mem_ptr(field_constructor, tag_, *this): a default-constructed field. */
    method BuildDefault()
      requires Declared(defs, u) && built == None
      modifies this`field, this`built
      ensures Valid() && Abs() == New(defs, u, tag)
    {
      var arm := LiveArm(u.arms, tag);
      if arm.Some? {
        PartRefers(u, tag, 0, |defs|);
        Build(arm.value, Default(defs, Part(u, tag, 0)));
        assert DefaultParts(defs, u, tag, 1) == [];
      }
    }

    /** _xdr_with_mem_ptr(field_destructor, tag_, *this). */
    method RazeLive()
      requires Valid()
      modifies this`built
      ensures built == None
    {
      var arm := LiveArm(u.arms, tag);
      if arm.Some? {
        Raze(arm.value);
      }
    }

    constructor (defs: seq<Type>, u: Type, signed: bool, which: Word)
      requires Declared(defs, u)
      ensures Valid() && this.defs == defs && this.u == u && Abs() == New(defs, u, which)
    {
      this.defs, this.u, this.signed, tag, built, field := defs, u, signed, which, None, VBool(false);
      new;
      BuildDefault();
    }

    constructor Copy(source: Object)
      requires source.Valid()
      ensures Valid() && defs == source.defs && u == source.u && Abs() == source.Abs()
    {
      defs, u, signed, tag, built, field := source.defs, source.u, source.signed, source.tag, None, VBool(false);
      new;
      var arm := LiveArm(u.arms, tag);
      if arm.Some? {
        Build(arm.value, source.field);
      }
    }

    /** The destructor. */
    method Destroy()
      requires Valid()
      modifies this`built
      ensures built == None
    {
      RazeLive();
    }

    /** _xdr_discriminant: a tag without an arm is refused unless validation is off. */
    method SetDiscriminant(which: Word, validate: bool) returns (ok: bool)
      requires Valid()
      modifies this
      ensures Valid() && ok == (Pick(u.arms, which) != -1 || !validate)
      ensures Abs() == if ok then Retagged(defs, u, old(Abs()), which) else old(Abs())
    {
      SameNumberSameField(u.arms, which, tag);
      var number := FieldNumber(u.arms, which);
      if number < 0 && validate {
        return false;
      }
      if number != FieldNumber(u.arms, tag) {
        RazeLive();
        tag := which;
        BuildDefault();
      } else {
        tag := which;
      }
      ok := true;
    }

    /** operator=, also from the object itself. */
    method Assign(source: Object)
      requires Valid() && source.Valid() && source.u == u && source.defs == defs
      modifies this
      ensures Valid() && source.Valid() && Abs() == old(source.Abs()) && source.Abs() == old(source.Abs())
    {
      SameNumberSameField(u.arms, tag, source.tag);
      var arm := LiveArm(u.arms, source.tag);
      if FieldNumber(u.arms, tag) == FieldNumber(u.arms, source.tag) {
        if arm.Some? {
          Overwrite(arm.value, source.field);
        }
      } else {
        RazeLive();
        tag := if signed then 0x7fff_ffff else 0xffff_ffff;   // numeric_limits::max, in case the copy throws
        if arm.Some? {
          Build(arm.value, source.field);
        }
      }
      tag := source.tag;
    }

    /** The accessor of arm `i`'s field: an exception unless it is the one alive. */
    method Access(i: nat) returns (r: Option<Value>)
      requires Valid() && i < |u.arms| && u.arms[i].body.Some?
      ensures r == if built == Some(i) then Some(field) else None
    {
      if Pick(u.arms, tag) != -1 {
        NumberIdentifies(u.arms, i, i);
        if FieldNumber(u.arms, tag) == Number(u.arms, i) {
          NumberIdentifies(u.arms, Pick(u.arms, tag), i);
          return Some(field);
        }
      }
      r := None;
    }
  }

  // ----- whole runs -------------------------------------------------------------------

  datatype Op =
    | Create(which: Word)
    | CopyOf(source: nat)
    | SetTag(target: nat, which: Word, validate: bool)
    | AssignFrom(target: nat, source: nat)
    | Delete(target: nat)

  /** The operations on values; those on objects that do not exist are skipped. */
  function Step(defs: seq<Type>, u: Type, vs: seq<Value>, op: Op): (r: seq<Value>)
    requires Declared(defs, u) && forall i :: 0 <= i < |vs| ==> vs[i].VUnion?
    ensures forall i :: 0 <= i < |r| ==> r[i].VUnion?
  {
    match op
    case Create(which) => vs + [New(defs, u, which)]
    case CopyOf(i) => if i < |vs| then vs + [vs[i]] else vs
    case SetTag(i, which, validate) =>
      if i < |vs| && (Pick(u.arms, which) != -1 || !validate) then vs[i := Retagged(defs, u, vs[i], which)] else vs
    case AssignFrom(i, j) => if i < |vs| && j < |vs| then vs[i := vs[j]] else vs
    case Delete(i) => if i < |vs| then Without(vs, i) else vs
  }

  function Steps(defs: seq<Type>, u: Type, ops: seq<Op>, n: nat): (r: seq<Value>)
    requires Declared(defs, u) && n <= |ops|
    ensures forall i :: 0 <= i < |r| ==> r[i].VUnion?
  {
    if n == 0 then [] else Step(defs, u, Steps(defs, u, ops, n - 1), ops[n - 1])
  }

  /** The pool holds different live objects with the values `vs`. */
  ghost predicate Holds(pool: seq<Object>, defs: seq<Type>, u: Type, vs: seq<Value>)
    reads set i | 0 <= i < |pool| :: pool[i]
  {
    && |pool| == |vs|
    && (forall i, j :: 0 <= i < j < |pool| ==> pool[i] != pool[j])
    && forall i :: 0 <= i < |pool| ==>
      pool[i].Valid() && pool[i].defs == defs && pool[i].u == u && pool[i].Abs() == vs[i]
  }

  /** The pool holds what `n` operations make. */
  ghost predicate HoldsAfter(pool: seq<Object>, defs: seq<Type>, u: Type, ops: seq<Op>, n: nat)
    requires Declared(defs, u) && n <= |ops|
    reads set i | 0 <= i < |pool| :: pool[i]
  {
    Holds(pool, defs, u, Steps(defs, u, ops, n))
  }

  ghost predicate Tagged(vs: seq<Value>) {
    forall i :: 0 <= i < |vs| ==> vs[i].VUnion?
  }

  method Add(defs: seq<Type>, u: Type, signed: bool, pool: seq<Object>, ghost vs: seq<Value>, op: Op) returns (next: seq<Object>)
    requires Declared(defs, u) && Tagged(vs) && Holds(pool, defs, u, vs) && (op.Create? || op.CopyOf?)
    ensures Holds(next, defs, u, Step(defs, u, vs, op))
    ensures forall i :: 0 <= i < |next| ==> next[i] in pool || fresh(next[i])
  {
    next := pool;
    if op.Create? {
      var o := new Object(defs, u, signed, op.which);
      next := pool + [o];
    } else if op.source < |pool| {
      var o := new Object.Copy(pool[op.source]);
      next := pool + [o];
    }
  }

  method Alter(defs: seq<Type>, u: Type, pool: seq<Object>, ghost vs: seq<Value>, op: Op)
    requires Declared(defs, u) && Tagged(vs) && Holds(pool, defs, u, vs) && (op.SetTag? || op.AssignFrom?)
    modifies pool
    ensures Holds(pool, defs, u, Step(defs, u, vs, op))
  {
    if op.target >= |pool| {
    } else if op.SetTag? {
      var _ := pool[op.target].SetDiscriminant(op.which, op.validate);
    } else if op.source < |pool| {
      pool[op.target].Assign(pool[op.source]);
    }
  }

  method Perform(defs: seq<Type>, u: Type, signed: bool, pool: seq<Object>, ghost vs: seq<Value>, op: Op) returns (next: seq<Object>)
    requires Declared(defs, u) && Tagged(vs) && Holds(pool, defs, u, vs)
    modifies pool
    ensures Holds(next, defs, u, Step(defs, u, vs, op))
    ensures forall i :: 0 <= i < |next| ==> next[i] in pool || fresh(next[i])
  {
    next := pool;
    if op.Create? || op.CopyOf? {
      next := Add(defs, u, signed, pool, vs, op);
    } else if op.SetTag? || op.AssignFrom? {
      Alter(defs, u, pool, vs, op);
    } else {
      next := Remove(defs, u, pool, vs, op.target);
    }
  }

  method Remove(defs: seq<Type>, u: Type, pool: seq<Object>, ghost vs: seq<Value>, target: nat) returns (next: seq<Object>)
    requires Declared(defs, u) && Tagged(vs) && Holds(pool, defs, u, vs)
    modifies pool
    ensures Holds(next, defs, u, Step(defs, u, vs, Delete(target)))
    ensures forall i :: 0 <= i < |next| ==> next[i] in pool
  {
    next := pool;
    if target < |pool| {
      pool[target].Destroy();
      next := Without(pool, target);
    }
  }

  /** Over any run, objects behave as the values they represent; in every object the
      member built is the one that its tag selects, built once and razed once, because
      Build and Raze are only ever called on storage that is empty or holds that member. */
  method Run(defs: seq<Type>, u: Type, signed: bool, ops: seq<Op>) returns (pool: seq<Object>)
    requires Declared(defs, u)
    ensures Holds(pool, defs, u, Steps(defs, u, ops, |ops|))
    ensures forall i :: 0 <= i < |pool| ==> fresh(pool[i])
  {
    pool := RunTo(defs, u, signed, ops, |ops|);
  }

  /** The first `n` operations. */
  method RunTo(defs: seq<Type>, u: Type, signed: bool, ops: seq<Op>, n: nat) returns (pool: seq<Object>)
    requires Declared(defs, u) && n <= |ops|
    ensures HoldsAfter(pool, defs, u, ops, n) && forall i :: 0 <= i < |pool| ==> fresh(pool[i])
    decreases n
  {
    if n == 0 {
      pool := [];
    } else {
      pool := RunTo(defs, u, signed, ops, n - 1);
      pool := PerformNext(defs, u, signed, pool, ops, n - 1);
    }
  }

  /** Operation number `n`. */
  method PerformNext(defs: seq<Type>, u: Type, signed: bool, pool: seq<Object>, ops: seq<Op>, n: nat) returns (next: seq<Object>)
    requires Declared(defs, u) && n < |ops| && HoldsAfter(pool, defs, u, ops, n)
    modifies pool
    ensures HoldsAfter(next, defs, u, ops, n + 1)
    ensures forall i :: 0 <= i < |next| ==> next[i] in pool || fresh(next[i])
  {
    next := Perform(defs, u, signed, pool, Steps(defs, u, ops, n), ops[n]);
  }
}
