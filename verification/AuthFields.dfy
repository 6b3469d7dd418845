/**
 Copy-on-write snapshots of a request's extra fields (auth-fields.c).  A snapshot normally costs
 nothing but the current length; a copy is made only when a field is about to be changed in place.
 */
module AuthFields {
  import opened Wrappers

  datatype Field = Field(key: string, value: Option<string>, hidden: bool, changed: bool)

  /** Keys and values, without the flags. */
  datatype Pair = Pair(key: string, value: Option<string>)

  function Pairs(fields: seq<Field>): (r: seq<Pair>)
    ensures |r| == |fields|
    ensures forall i :: 0 <= i < |fields| ==> r[i] == Pair(fields[i].key, fields[i].value)
  {
    seq(|fields|, i requires 0 <= i < |fields| => Pair(fields[i].key, fields[i].value))
  }

  predicate UniqueKeys(pairs: seq<Pair>) {
    forall i, j :: 0 <= i < j < |pairs| ==> pairs[i].key != pairs[j].key
  }

  /** `p_strdup_empty`: an empty value is stored as none. */
  function NonEmpty(value: Option<string>): Option<string> {
    if value == Some("") then None else value
  }

  lemma RemovedUnique(fields: seq<Field>, idx: nat)
    requires UniqueKeys(Pairs(fields)) && idx < |fields|
    ensures UniqueKeys(Pairs(fields[..idx] + fields[idx + 1..]))
  {
    var before, after := Pairs(fields), Pairs(fields[..idx] + fields[idx + 1..]);
    assert forall i :: 0 <= i < |after| ==> after[i] == before[if i < idx then i else i + 1];
  }

  lemma ReplacedUnique(fields: seq<Field>, idx: nat, f: Field)
    requires UniqueKeys(Pairs(fields)) && idx < |fields| && fields[idx].key == f.key
    ensures UniqueKeys(Pairs(fields[idx := f]))
  {
    var before, after := Pairs(fields), Pairs(fields[idx := f]);
    assert forall i :: 0 <= i < |after| ==> after[i].key == before[i].key;
  }

  lemma AppendedUnique(fields: seq<Field>, f: Field, base: seq<Pair>)
    requires UniqueKeys(Pairs(fields)) && forall i :: 0 <= i < |fields| ==> fields[i].key != f.key
    ensures UniqueKeys(Pairs(fields + [f])) && (base <= Pairs(fields) ==> base <= Pairs(fields + [f]))
  {
    assert Pairs(fields + [f]) == Pairs(fields) + [Pair(f.key, f.value)];
  }

  lemma OnlyAt(fields: seq<Field>, idx: nat, key: string)
    requires UniqueKeys(Pairs(fields)) && idx < |fields| && fields[idx].key == key
    ensures forall i :: 0 <= i < |fields| && fields[i].key == key ==> i == idx
  {
    var pairs := Pairs(fields);
    forall i | 0 <= i < |fields| && fields[i].key == key
      ensures i == idx
    {
      assert pairs[i].key == pairs[idx].key;
    }
  }

  class Fields {
    var fields: seq<Field>
    var created: bool
    var snapshotFields: Option<seq<Field>>
    var snapshotIdx: nat
    var snapshotted: bool

    /** The list at the last snapshot, whether a copy already existed then, and the list just before the
        first change in place since. */
    ghost var base: seq<Pair>
    ghost var copied: bool
    ghost var firstChange: Option<seq<Pair>>
    /** How many rollbacks did not restore the last snapshot as it was. */
    ghost var inexact: nat

    constructor ()
      ensures Valid() && inexact == 0 && fields == [] && base == [] && !copied && firstChange == None
              && !created && !snapshotted
    {
      fields, created, snapshotFields, snapshotIdx, snapshotted := [], false, None, 0, false;
      base, copied, firstChange, inexact := [], false, None, 0;
    }

    /** What a rollback will restore. */
    ghost function Target(): seq<Pair>
      reads this
    {
      if copied || firstChange.None? then base else firstChange.value
    }

    ghost predicate Valid()
      reads this
    {
      && UniqueKeys(Pairs(fields))
      && (!created ==> fields == [] && base == [])
      && (!snapshotted ==> snapshotFields.None? && base == [] && firstChange.None?)
      && base <= (if firstChange.None? then Pairs(fields) else firstChange.value)
      && match snapshotFields
         case None => !copied && firstChange.None? && snapshotIdx == |base|
         case Some(s) =>
           snapshotted && created && Pairs(s) == Target() && UniqueKeys(Pairs(s)) && (copied || firstChange.Some?)
    }

    lemma NoCopyYet()
      requires Valid() && !snapshotted
      ensures snapshotFields.None?
    {
    }

    method FindIdx(key: string) returns (idx: int)
      requires Valid()
      ensures -1 <= idx < |fields|
      ensures idx >= 0 ==> fields[idx].key == key && created
      ensures idx == -1 ==> forall i :: 0 <= i < |fields| ==> fields[i].key != key
    {
      if !created {
        return -1;
      }
      for i := 0 to |fields|
        invariant forall j :: 0 <= j < i ==> fields[j].key != key
      {
        if fields[i].key == key {
          return i;
        }
      }
      return -1;
    }

    /** `auth_fields_snapshot_preserve`, called before every change in place. */
    method SnapshotPreserve()
      requires Valid() && created
      modifies this`snapshotFields, this`firstChange
      ensures Valid() && (snapshotted ==> snapshotFields.Some? && firstChange.Some?)
      ensures firstChange == if snapshotted && old(firstChange).None? then Some(Pairs(fields)) else old(firstChange)
    {
      ghost var first := firstChange;
      if snapshotted && first.None? {
        firstChange := Some(Pairs(fields));
      }
      if !snapshotted || snapshotFields.Some? {
        return;
      }
      snapshotFields := Some(fields);
    }

    /** `auth_fields_add`: replace the value in place, or append. */
    method Add(key: string, value: Option<string>, hidden: bool)
      requires Valid()
      modifies this`fields, this`created, this`snapshotFields, this`firstChange
      ensures Valid()
      ensures (forall i :: 0 <= i < |old(fields)| ==> old(fields)[i].key != key) ==>
                fields == old(fields) + [Field(key, if value == Some("") then None else value, hidden, true)]
                && firstChange == old(firstChange)
      ensures forall i :: 0 <= i < |old(fields)| && old(fields)[i].key == key ==>
                fields == old(fields)[i := Field(key, if value == Some("") then None else value, hidden, true)]
                && firstChange == if snapshotted && old(firstChange).None? then Some(Pairs(old(fields)))
                                  else old(firstChange)
    {
      hide UniqueKeys, Pairs;
      var idx := FindIdx(key);
      var field := Field(key, NonEmpty(value), hidden, true);
      if idx == -1 {
        AppendedUnique(fields, field, base);
        created := true;
        fields := fields + [field];
      } else {
        SnapshotPreserve();
        ReplacedUnique(fields, idx, field);
        OnlyAt(fields, idx, key);
        fields := fields[idx := field];
      }
    }

    /** `auth_fields_remove` */
    method Remove(key: string)
      requires Valid()
      modifies this`fields, this`snapshotFields, this`firstChange
      ensures Valid()
      ensures (forall i :: 0 <= i < |old(fields)| ==> old(fields)[i].key != key) ==>
                fields == old(fields) && firstChange == old(firstChange)
      ensures forall i :: 0 <= i < |old(fields)| && old(fields)[i].key == key ==>
                fields == old(fields)[..i] + old(fields)[i + 1..]
                && firstChange == if snapshotted && old(firstChange).None? then Some(Pairs(old(fields)))
                                  else old(firstChange)
    {
      hide UniqueKeys, Pairs;
      var idx := FindIdx(key);
      if idx != -1 {
        SnapshotPreserve();
        RemovedUnique(fields, idx);
        OnlyAt(fields, idx, key);
        fields := fields[..idx] + fields[idx + 1..];
      }
    }

    /** `auth_fields_reset` */
    method Reset()
      requires Valid()
      modifies this`fields, this`snapshotFields, this`firstChange
      ensures Valid() && fields == []
      ensures firstChange == if created && snapshotted && old(firstChange).None? then Some(Pairs(old(fields)))
                             else old(firstChange)
    {
      if created {
        SnapshotPreserve();
        fields := [];
      }
    }

    /** `auth_fields_snapshot` */
    method Snapshot()
      requires Valid()
      modifies this`fields, this`snapshotFields, this`snapshotIdx, this`snapshotted, this`base, this`copied,
               this`firstChange
      ensures Valid() && Pairs(fields) == Pairs(old(fields)) && forall i :: 0 <= i < |fields| ==> !fields[i].changed
      ensures base == Pairs(fields) && copied == old(snapshotFields).Some? && firstChange == None && snapshotted
    {
      ghost var before := Pairs(fields);
      snapshotted := true;
      base, copied, firstChange := before, snapshotFields.Some?, None;
      if !created {
        return;
      }
      if snapshotFields.None? {
        snapshotIdx := |fields|;
      } else {
        snapshotFields := Some(fields);
      }
      var cleared := fields;
      for i := 0 to |fields|
        invariant |cleared| == |fields|
        invariant forall j :: 0 <= j < |fields| ==>
                    cleared[j] == if j < i then fields[j].(changed := false) else fields[j]
      {
        cleared := cleared[i := cleared[i].(changed := false)];
      }
      fields := cleared;
      assert Pairs(fields) == before;
    }

    /** The last snapshot is restored as it was. */
    ghost predicate Exact()
      reads this
    {
      copied || firstChange.None? || |firstChange.value| == |base|
    }

    /** `auth_fields_rollback`: restores the last snapshot, unless fields were appended between it and the first change
        in place, which made the copy. */
    method Rollback()
      requires Valid()
      modifies this`fields, this`inexact
      ensures Valid() && Pairs(fields) == Target()
      ensures Pairs(fields) == base <==> Exact()
      ensures inexact == old(inexact) + (if old(Exact()) then 0 else 1)
    {
      inexact := inexact + if Exact() then 0 else 1;
      match snapshotFields {
        case Some(s) =>
          fields := s;
        case None =>
          if created {
            assert snapshotIdx <= |fields|;
            ghost var before := Pairs(fields);
            fields := fields[..snapshotIdx];
            assert Pairs(fields) == before[..snapshotIdx];
          }
      }
    }
  }

  method OneFieldSaved() returns (f: Fields)
    ensures f.Valid() && f.snapshotted && !f.copied && f.firstChange == None && fresh(f)
    ensures f.base == Pairs(f.fields) == [Pair("user", Some("a"))] && |f.fields| == 1 && f.fields[0].key == "user"
  {
    hide Fields.Valid, UniqueKeys, Pairs;
    f := new Fields();
    f.Add("user", Some("a"), false);
    f.NoCopyYet();
    ghost var pairs := Pairs(f.fields);
    assert pairs == [Pair("user", Some("a"))];
    f.Snapshot();
    assert f.fields[0].key == pairs[0].key;
  }

  /** A field that was appended after the snapshot survives the rollback, because a change in place followed it. */
  method AppendedFieldSurvives() returns (f: Fields)
    ensures f.Valid() && Pairs(f.fields) == [Pair("user", Some("a")), Pair("host", Some("h"))]
    ensures f.base == [Pair("user", Some("a"))]
  {
    hide Fields.Valid, UniqueKeys, Fields.Exact, Pairs;
    f := OneFieldSaved();
    f.Add("host", Some("h"), false);
    ghost var grown := Pairs(f.fields);
    assert grown == [Pair("user", Some("a")), Pair("host", Some("h"))];
    assert f.fields[0].key == grown[0].key;
    f.Add("user", Some("b"), false);
    assert f.firstChange == Some(grown);
    f.Rollback();
  }

  datatype Op = AddField(key: string, value: Option<string>, hidden: bool) | RemoveField(key: string) | ResetAll
              | TakeSnapshot | RollBack

  // ------------------------------------------------------------- plain snapshots

  /** Fields with a snapshot that is simply a copy. */
  datatype Plain = Plain(pairs: seq<Pair>, saved: seq<Pair>)

  ghost function Put(pairs: seq<Pair>, key: string, value: Option<string>): seq<Pair> {
    if pairs == [] then [Pair(key, value)]
    else if pairs[0].key == key then [Pair(key, value)] + pairs[1..]
    else [pairs[0]] + Put(pairs[1..], key, value)
  }

  ghost function Without(pairs: seq<Pair>, key: string): seq<Pair> {
    if pairs == [] then []
    else if pairs[0].key == key then pairs[1..]
    else [pairs[0]] + Without(pairs[1..], key)
  }

  lemma {:induction false} Absent(pairs: seq<Pair>, key: string, value: Option<string>)
    requires forall i :: 0 <= i < |pairs| ==> pairs[i].key != key
    ensures Put(pairs, key, value) == pairs + [Pair(key, value)] && Without(pairs, key) == pairs
  {
    if pairs != [] {
      Absent(pairs[1..], key, value);
    }
  }

  lemma {:induction false} Present(pairs: seq<Pair>, key: string, value: Option<string>, i: nat)
    requires i < |pairs| && pairs[i].key == key && forall j :: 0 <= j < i ==> pairs[j].key != key
    ensures Put(pairs, key, value) == pairs[i := Pair(key, value)] && Without(pairs, key) == pairs[..i] + pairs[i + 1..]
  {
    if i > 0 {
      Present(pairs[1..], key, value, i - 1);
      assert pairs[..i] + pairs[i + 1..] == [pairs[0]] + (pairs[1..][..i - 1] + pairs[1..][i..]);
    }
  }

  ghost function Step(p: Plain, op: Op): Plain {
    match op
    case AddField(key, value, _) => p.(pairs := Put(p.pairs, key, NonEmpty(value)))
    case RemoveField(key) => p.(pairs := Without(p.pairs, key))
    case ResetAll => p.(pairs := [])
    case TakeSnapshot => p.(saved := p.pairs)
    case RollBack => p.(pairs := p.saved)
  }

  /** Each operation by the pairs it leaves. */
  lemma StepMeans(p: Plain, op: Op)
    requires UniqueKeys(p.pairs)
    ensures op.AddField? ==>
              && Step(p, op).saved == p.saved
              && forall x :: x in Step(p, op).pairs <==>
                   if x.key == op.key then x.value == (if op.value == Some("") then None else op.value)
                   else x in p.pairs
    ensures op.RemoveField? ==>
              && Step(p, op).saved == p.saved
              && forall x :: x in Step(p, op).pairs <==> x in p.pairs && x.key != op.key
    ensures op.ResetAll? ==> Step(p, op) == Plain([], p.saved)
    ensures op.TakeSnapshot? ==> Step(p, op) == Plain(p.pairs, p.pairs)
    ensures op.RollBack? ==> Step(p, op) == Plain(p.saved, p.saved)
  {
    if op.AddField? {
      PutMeans(p.pairs, op.key, NonEmpty(op.value));
    } else if op.RemoveField? {
      WithoutMeans(p.pairs, op.key);
    }
  }

  lemma {:induction false} PutMeans(pairs: seq<Pair>, key: string, value: Option<string>)
    requires UniqueKeys(pairs)
    ensures forall x :: x in Put(pairs, key, value) <==> if x.key == key then x.value == value else x in pairs
  {
    if pairs != [] {
      assert pairs == [pairs[0]] + pairs[1..];
      PutMeans(pairs[1..], key, value);
    }
  }

  lemma {:induction false} WithoutMeans(pairs: seq<Pair>, key: string)
    requires UniqueKeys(pairs)
    ensures forall x :: x in Without(pairs, key) <==> x in pairs && x.key != key
  {
    if pairs != [] {
      assert pairs == [pairs[0]] + pairs[1..];
      WithoutMeans(pairs[1..], key);
    }
  }

  /** Whatever is changed after a snapshot, rolling back brings back the fields as they were when it was taken. */
  lemma SnapshotRestores(p: Plain, changes: seq<Op>)
    requires forall op :: op in changes ==> !op.TakeSnapshot?
    ensures Steps(p, [TakeSnapshot] + changes + [RollBack]) == Plain(p.pairs, p.pairs)
  {
    assert ([TakeSnapshot] + changes + [RollBack])[1..] == changes + [RollBack];
    SavedKept(Plain(p.pairs, p.pairs), changes);
  }

  lemma {:induction false} SavedKept(p: Plain, changes: seq<Op>)
    requires forall op :: op in changes ==> !op.TakeSnapshot?
    ensures Steps(p, changes + [RollBack]) == Plain(p.saved, p.saved)
    decreases |changes|
  {
    var all := changes + [RollBack];
    if changes == [] {
      assert all[1..] == [];
    } else {
      assert all[1..] == changes[1..] + [RollBack];
      SavedKept(Step(p, changes[0]), changes[1..]);
    }
  }

  ghost function Steps(p: Plain, ops: seq<Op>): Plain
    decreases |ops|
  {
    if ops == [] then p else Steps(Step(p, ops[0]), ops[1..])
  }

  /** One operation does what it does to plain snapshots, unless it is an inexact rollback. */
  method Apply(f: Fields, op: Op)
    requires f.Valid()
    modifies f
    ensures f.Valid() && old(f.inexact) <= f.inexact
    ensures f.inexact == old(f.inexact) ==>
              Plain(Pairs(f.fields), f.base) == old(Step(Plain(Pairs(f.fields), f.base), op))
  {
    assert UniqueKeys(Pairs(f.fields));
    hide Fields.Valid, UniqueKeys, Put, Without, Fields.Exact, Fields.Target;
    ghost var before := f.fields;
    match op {
      case AddField(key, value, hidden) =>
        f.Add(key, value, hidden);
        Added(before, f.fields, Field(key, NonEmpty(value), hidden, true));
      case RemoveField(key) =>
        f.Remove(key);
        Removed(before, f.fields, key);
      case ResetAll =>
        f.Reset();
      case TakeSnapshot =>
        f.Snapshot();
      case RollBack =>
        f.Rollback();
    }
  }

  lemma Added(before: seq<Field>, after: seq<Field>, f: Field)
    requires UniqueKeys(Pairs(before))
    requires (forall i :: 0 <= i < |before| ==> before[i].key != f.key) ==> after == before + [f]
    requires forall i :: 0 <= i < |before| && before[i].key == f.key ==> after == before[i := f]
    ensures Pairs(after) == Put(Pairs(before), f.key, f.value)
  {
    if i :| 0 <= i < |before| && before[i].key == f.key {
      ReplacedAt(before, f, i);
    } else {
      Absent(Pairs(before), f.key, f.value);
      assert Pairs(before + [f]) == Pairs(before) + [Pair(f.key, f.value)];
    }
  }

  lemma ReplacedAt(fields: seq<Field>, f: Field, i: nat)
    requires UniqueKeys(Pairs(fields)) && i < |fields| && fields[i].key == f.key
    ensures Pairs(fields[i := f]) == Put(Pairs(fields), f.key, f.value)
  {
    Present(Pairs(fields), f.key, f.value, i);
    assert Pairs(fields[i := f]) == Pairs(fields)[i := Pair(f.key, f.value)];
  }

  lemma Removed(before: seq<Field>, after: seq<Field>, key: string)
    requires UniqueKeys(Pairs(before))
    requires (forall i :: 0 <= i < |before| ==> before[i].key != key) ==> after == before
    requires forall i :: 0 <= i < |before| && before[i].key == key ==> after == before[..i] + before[i + 1..]
    ensures Pairs(after) == Without(Pairs(before), key)
  {
    hide Without;
    if i :| 0 <= i < |before| && before[i].key == key {
      RemovedAt(before, key, i);
    } else {
      Absent(Pairs(before), key, None);
    }
  }

  lemma RemovedAt(fields: seq<Field>, key: string, i: nat)
    requires UniqueKeys(Pairs(fields)) && i < |fields| && fields[i].key == key
    ensures Pairs(fields[..i] + fields[i + 1..]) == Without(Pairs(fields), key)
  {
    hide Without, UniqueKeys, Pairs;
    OnlyAt(fields, i, key);
    Present(Pairs(fields), key, None, i);
    assert Pairs(fields[..i] + fields[i + 1..]) == Pairs(fields)[..i] + Pairs(fields)[i + 1..];
  }

  /** Every run without an inexact rollback ends as it would with plain snapshots. */
  method Run(f: Fields, ops: seq<Op>)
    requires f.Valid()
    modifies f
    ensures f.Valid() && old(f.inexact) <= f.inexact
    ensures f.inexact == old(f.inexact) ==>
              Plain(Pairs(f.fields), f.base) == Steps(old(Plain(Pairs(f.fields), f.base)), ops)
  {
    hide Step, Pairs, Fields.Valid;
    var i := 0;
    while i < |ops|
      invariant 0 <= i <= |ops| && f.Valid() && old(f.inexact) <= f.inexact
      invariant f.inexact == old(f.inexact) ==>
                  Steps(Plain(Pairs(f.fields), f.base), ops[i..]) == Steps(old(Plain(Pairs(f.fields), f.base)), ops)
    {
      assert ops[i..][1..] == ops[i + 1..];
      Apply(f, ops[i]);
      i := i + 1;
    }
  }
}
