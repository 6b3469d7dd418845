/**
 The anvil penalty tracker (penalty.c): per identity a penalty, the time it was last raised, the time of
 the last update as a 15 bit offset from that, and the checksums of the last few failed logins.
 */
module Penalty {
  import opened Wrappers

  const SMALL_COUNT := 2
  const LARGE_COUNT := 10
  const UPDATE_RANGE := 0x8000
  const PENALTY_RANGE := 0x1_0000
  const UINT_RANGE := 0x1_0000_0000
  const INT_MAX := 0x7FFF_FFFF
  const DEFAULT_EXPIRE_SECS := 3600

  // ---------------------------------------------------------------- checksums

  ghost function Without(s: seq<nat>, c: nat): seq<nat> {
    if s == [] then [] else (if s[0] == c then [] else [s[0]]) + Without(s[1..], c)
  }

  /** The list of distinct checksums, most recent first, after seeing `c`. */
  ghost function MoveToFront(recent: seq<nat>, c: nat): seq<nat> {
    [c] + Without(recent, c)
  }

  /** The checksums a record remembers. */
  ghost function Top(recent: seq<nat>): seq<nat> {
    recent[..if |recent| < LARGE_COUNT then |recent| else LARGE_COUNT]
  }

  /** `slots` holds the first entries of `recent` and then zeros. */
  ghost predicate Holds(slots: seq<nat>, recent: seq<nat>) {
    forall i :: 0 <= i < |slots| ==> slots[i] == if i < |recent| then recent[i] else 0
  }

  lemma {:induction false} WithoutAbsent(s: seq<nat>, c: nat)
    requires c !in s
    ensures Without(s, c) == s
  {
    if s != [] {
      WithoutAbsent(s[1..], c);
    }
  }

  lemma {:induction false} WithoutAt(s: seq<nat>, i: nat)
    requires Distinct(s) && i < |s|
    ensures Without(s, s[i]) == s[..i] + s[i + 1..]
  {
    if i == 0 {
      WithoutAbsent(s[1..], s[0]);
    } else {
      WithoutAt(s[1..], i - 1);
      assert s[1..][i - 1] == s[i];
      assert s[..i] + s[i + 1..] == [s[0]] + (s[1..][..i - 1] + s[1..][i..]);
    }
  }

  /** The checksums a record remembers are the ten seen last. */
  lemma TopMeans(recent: seq<nat>, c: nat)
    ensures c in Top(recent) <==> exists i :: 0 <= i < |recent| && i < 10 && recent[i] == c
  {
    if c in Top(recent) {
      var i :| 0 <= i < |Top(recent)| && Top(recent)[i] == c;
      assert recent[i] == c;
    }
    if i :| 0 <= i < |recent| && i < 10 && recent[i] == c {
      assert Top(recent)[i] == c;
    }
  }

  /** Seeing a checksum puts it in front and leaves the others in their order. */
  lemma MoveToFrontMeans(recent: seq<nat>, c: nat)
    requires Distinct(recent)
    ensures c !in recent ==> MoveToFront(recent, c) == [c] + recent
    ensures forall i :: 0 <= i < |recent| && recent[i] == c ==>
              MoveToFront(recent, c) == [c] + recent[..i] + recent[i + 1..]
  {
    if c !in recent {
      WithoutAbsent(recent, c);
    }
    forall i | 0 <= i < |recent| && recent[i] == c
      ensures MoveToFront(recent, c) == [c] + recent[..i] + recent[i + 1..]
    {
      Promote(recent, i);
    }
  }

  /** The checksum list of one record: two slots in place, or ten behind a pointer. */
  class Checksums {
    var isPointer: bool
    var slots: seq<nat>
    /** Every distinct checksum seen, most recent first. */
    ghost var recent: seq<nat>

    constructor ()
      ensures Valid() && recent == []
    {
      isPointer, slots, recent := false, [0, 0], [];
    }

    ghost predicate Valid()
      reads this
    {
      && |slots| == (if isPointer then LARGE_COUNT else SMALL_COUNT)
      && (!isPointer ==> |recent| <= SMALL_COUNT)
      && Distinct(recent) && 0 !in recent
      && Holds(slots, recent)
    }

    /** `penalty_bump_checksum`: a known checksum moves to the front. */
    method Bump(checksum: nat) returns (known: bool)
      requires Valid() && checksum != 0
      modifies this
      ensures Valid() && isPointer == old(isPointer)
      ensures known <==> checksum in Top(old(recent))
      ensures !known ==> slots == old(slots) && checksum !in slots
      ensures recent == if known then MoveToFront(old(recent), checksum) else old(recent)
    {
      hide MoveToFront;
      var i := 0;
      while i < |slots|
        invariant 0 <= i <= |slots|
        invariant checksum !in slots[..i]
      {
        if slots[i] == checksum {
          assert recent[i] == checksum;
          Promote(recent, i);
          recent := MoveToFront(recent, checksum);
          if i > 0 {
            slots := [checksum] + slots[..i] + slots[i + 1..];
          }
          return true;
        }
        i := i + 1;
      }
      return false;
    }

    /** `penalty_add_checksum`: a new checksum goes to the front, after switching to ten slots if both are taken. */
    method AddChecksum(checksum: nat)
      requires Valid() && checksum != 0 && checksum !in slots
      modifies this
      ensures Valid() && recent == MoveToFront(old(recent), checksum)
    {
      Prepend(recent, checksum, |slots|);
      recent := MoveToFront(recent, checksum);
      if !isPointer {
        if slots[SMALL_COUNT - 1] == 0 {
          slots := [checksum] + slots[..SMALL_COUNT - 1];
          return;
        }
        slots := slots + seq(LARGE_COUNT - SMALL_COUNT, _ => 0);
        isPointer := true;
      }
      slots := [checksum] + slots[..LARGE_COUNT - 1];
    }

    /** What `penalty_inc` does with a non-zero checksum. */
    method See(checksum: nat) returns (known: bool)
      requires Valid() && checksum != 0
      modifies this
      ensures Valid() && recent == MoveToFront(old(recent), checksum)
      ensures known <==> checksum in Top(old(recent))
    {
      known := Bump(checksum);
      if !known {
        AddChecksum(checksum);
      }
    }

    /** Both representations answer alike: a checksum is known while fewer than ten others were seen after it. */
    method Has(checksum: nat) returns (known: bool)
      requires Valid()
      ensures checksum != 0 ==> (known <==> checksum in Top(recent))
      ensures checksum == 0 ==> (known <==> |recent| < |slots|)
    {
      assert |recent| < |slots| ==> slots[|recent|] == 0;
      var i := 0;
      while i < |slots|
        invariant 0 <= i <= |slots|
        invariant forall j :: 0 <= j < i ==> slots[j] != checksum
      {
        if slots[i] == checksum {
          return true;
        }
        i := i + 1;
      }
      return false;
    }
  }

  lemma Promote(recent: seq<nat>, i: nat)
    requires Distinct(recent) && i < |recent|
    ensures MoveToFront(recent, recent[i]) == [recent[i]] + recent[..i] + recent[i + 1..]
    ensures Distinct(MoveToFront(recent, recent[i]))
    ensures forall x :: x in MoveToFront(recent, recent[i]) ==> x in recent
  {
    WithoutAt(recent, i);
    assert [recent[i]] + (recent[..i] + recent[i + 1..]) == [recent[i]] + recent[..i] + recent[i + 1..];
  }

  /** A checksum that is not among the first `n` goes to the front of them, wherever else it may be. */
  lemma Prepend(recent: seq<nat>, c: nat, n: nat)
    requires Distinct(recent)
    requires forall i :: 0 <= i < n && i < |recent| ==> recent[i] != c
    ensures Distinct(MoveToFront(recent, c))
    ensures var m := MoveToFront(recent, c);
            && (c in recent ==> |m| == |recent| > n)
            && (c !in recent ==> |m| == |recent| + 1)
            && (forall i :: 0 <= i < n && i < |recent| ==> i + 1 < |m| && m[i + 1] == recent[i])
            && (forall x :: x in m ==> x == c || x in recent)
  {
    if c in recent {
      var i :| 0 <= i < |recent| && recent[i] == c;
      Promote(recent, i);
    } else {
      WithoutAbsent(recent, c);
    }
  }

  // ------------------------------------------------------------------ the tracker

  /** One identity.  The last update is `lastPenalty + lastUpdate`. */
  datatype Record = Record(lastPenalty: int, penalty: nat, lastUpdate: nat, checksums: Checksums)

  function Index<T(==)>(order: seq<T>, ident: T): (i: nat)
    requires ident in order
    ensures i < |order| && order[i] == ident
  {
    if order[0] == ident then 0 else 1 + Index(order[1..], ident)
  }

  function Removed<T(==)>(order: seq<T>, ident: T): seq<T> {
    if ident in order then var i := Index(order, ident); order[..i] + order[i + 1..] else order
  }

  /** The list holds every hashed record once, in the order of their last updates. */
  ghost predicate Ordered<T>(order: seq<T>, updated: map<T, int>) {
    && Distinct(order)
    && (forall i :: 0 <= i < |order| ==> order[i] in updated)
    && (forall k :: k in updated ==> k in order)
    && (forall i, j :: 0 <= i < j < |order| ==> updated[order[i]] <= updated[order[j]])
  }

  /** `DLLIST2_REMOVE` */
  lemma Detach<T>(order: seq<T>, ident: T, updated: map<T, int>)
    requires Ordered(order, updated)
    ensures Ordered(Removed(order, ident), updated - {ident})
    ensures Removed(order, ident) != [] ==> updated[order[0]] <= updated[Removed(order, ident)[0]]
  {
    hide Index;
    if ident in order {
      DetachAt(order, Index(order, ident), updated);
    } else {
      assert updated - {ident} == updated;
    }
  }

  lemma DetachAt<T>(order: seq<T>, i: nat, updated: map<T, int>)
    requires Ordered(order, updated) && i < |order|
    ensures Ordered(order[..i] + order[i + 1..], updated - {order[i]})
    ensures |order| > 1 ==> updated[order[0]] <= updated[(order[..i] + order[i + 1..])[0]]
  {
    DetachedKeys(order, i, updated);
    DetachedOrder(order, i, updated);
  }

  lemma DetachedKeys<T>(order: seq<T>, i: nat, updated: map<T, int>)
    requires Ordered(order, updated) && i < |order|
    ensures var r, rest := order[..i] + order[i + 1..], updated - {order[i]};
            (forall j :: 0 <= j < |r| ==> r[j] in rest) && (forall k :: k in rest ==> k in r)
  {
    var r, rest := order[..i] + order[i + 1..], updated - {order[i]};
    forall k | k in rest
      ensures k in r
    {
      var j :| 0 <= j < |order| && order[j] == k;
      assert r[if j < i then j else j - 1] == k;
    }
  }

  lemma DetachedOrder<T>(order: seq<T>, i: nat, updated: map<T, int>)
    requires Ordered(order, updated) && i < |order|
    ensures var r := order[..i] + order[i + 1..];
            && (forall j :: 0 <= j < |r| ==> r[j] in updated)
            && (forall j, k :: 0 <= j < k < |r| ==> r[j] != r[k] && updated[r[j]] <= updated[r[k]])
            && (r != [] ==> updated[order[0]] <= updated[r[0]])
  {
    var r := order[..i] + order[i + 1..];
    assert forall j :: 0 <= j < |r| ==> r[j] == order[if j < i then j else j + 1];
  }

  /** `DLLIST2_APPEND` of a record that is updated now. */
  lemma Attach<T>(order: seq<T>, ident: T, updated: map<T, int>, now: int)
    requires Ordered(order, updated) && ident !in updated && forall k :: k in updated ==> updated[k] <= now
    ensures Ordered(order + [ident], updated[ident := now])
  {
    var r := order + [ident];
    assert r[|order|] == ident;
    assert forall i :: 0 <= i < |order| ==> r[i] == order[i];
    forall k | k in updated
      ensures k in r
    {
      assert k in order;
    }
  }

  lemma MovedToEnd<T>(order: seq<T>, ident: T, updated: map<T, int>, now: int)
    requires Ordered(order, updated) && forall k :: k in updated ==> updated[k] <= now
    ensures Ordered(Removed(order, ident) + [ident], updated[ident := now])
    ensures order != [] ==> updated[order[0]] <= updated[ident := now][(Removed(order, ident) + [ident])[0]]
  {
    Detach(order, ident, updated);
    Attach(Removed(order, ident), ident, updated - {ident}, now);
    assert (updated - {ident})[ident := now] == updated[ident := now];
  }

  /** What the tracker means to know about one identity. */
  datatype Entry = Entry(updated: int, lastPenalty: int, penalty: nat, recent: seq<nat>)

  ghost function Seen(model: map<string, Entry>, ident: string): seq<nat> {
    if ident in model then model[ident].recent else []
  }

  /** `penalty_inc` on that level: a checksum among the last ten neither raises the penalty nor renews its time. */
  ghost function Inced(model: map<string, Entry>, ident: string, checksum: nat, value: nat, now: int)
    : map<string, Entry>
  {
    var before := if ident in model then model[ident] else Entry(now, now, 0, []);
    var known := checksum != 0 && checksum in Top(before.recent);
    model[ident := Entry(
      now,
      if known then Max(before.lastPenalty, now - (UPDATE_RANGE - 1)) else now,
      (if known then value - 1 else value) % PENALTY_RANGE,
      if checksum == 0 then before.recent else MoveToFront(before.recent, checksum))]
  }

  /** The checksum is not zero and among the ten this identity sent last. */
  ghost predicate Repeated(model: map<string, Entry>, ident: string, checksum: nat) {
    && checksum != 0 && ident in model
    && exists i :: 0 <= i < |model[ident].recent| && i < 10 && model[ident].recent[i] == checksum
  }

  /**
   What an increase does.  Only a checksum that is not repeated gives the value and restarts the penalty's time; a
   repeated one gives one less and keeps the time, or what 15 bits can say of it.
   */
  lemma IncedMeans(model: map<string, Entry>, ident: string, checksum: nat, value: nat, now: int)
    requires checksum != 0 ==> value > 0
    ensures var after := Inced(model, ident, checksum, value, now);
            && after.Keys == model.Keys + {ident} && after[ident].updated == now
            && (forall k :: k in model && k != ident ==> after[k] == model[k])
            && (checksum == 0 && ident in model ==> after[ident].recent == model[ident].recent)
            && (checksum == 0 && ident !in model ==> after[ident].recent == [])
            && (checksum != 0 && ident !in model ==> after[ident].recent == [checksum])
            && (checksum != 0 && ident in model ==> after[ident].recent == MoveToFront(model[ident].recent, checksum))
    ensures !Repeated(model, ident, checksum) ==>
              var entry := Inced(model, ident, checksum, value, now)[ident];
              entry.penalty == value % 0x1_0000 && entry.lastPenalty == now
    ensures Repeated(model, ident, checksum) ==>
              var entry := Inced(model, ident, checksum, value, now)[ident];
              && entry.penalty == (value - 1) % 0x1_0000
              && (now - model[ident].lastPenalty < 0x8000 ==> entry.lastPenalty == model[ident].lastPenalty)
              && (now - model[ident].lastPenalty >= 0x8000 ==> entry.lastPenalty == now - 0x7FFF)
  {
    TopMeans(Seen(model, ident), checksum);
    hide Top;
  }

  ghost function Unexpired(model: map<string, Entry>, expireSecs: nat, now: int): map<string, Entry> {
    map k | k in model && model[k].updated + expireSecs > now :: model[k]
  }

  lemma UnexpiredMeans(model: map<string, Entry>, secs: nat, now: int)
    ensures forall k :: k in model ==> (k in Unexpired(model, secs, now) <==> model[k].updated + secs > now)
    ensures forall k :: k in Unexpired(model, secs, now) ==> k in model && Unexpired(model, secs, now)[k] == model[k]
  {}

  function Max(a: int, b: int): int {
    if a < b then b else a
  }

  ghost function Times(model: map<string, Entry>): map<string, int> {
    map k | k in model :: model[k].updated
  }

  /** The record keeps the time of the last update in 15 bits on top of the time of the last penalty. */
  ghost predicate Encodes(rec: Record, entry: Entry) {
    && rec.lastUpdate < UPDATE_RANGE && rec.penalty < PENALTY_RANGE
    && rec.lastPenalty + rec.lastUpdate == entry.updated
    && rec.lastPenalty == entry.lastPenalty && rec.penalty == entry.penalty
  }

  ghost predicate Faithful(records: map<string, Record>, model: map<string, Entry>, now: int) {
    && records.Keys == model.Keys
    && (forall k :: k in records ==> Encodes(records[k], model[k]) && model[k].updated <= now)
    && (forall k, l :: k in records && l in records && k != l ==> records[k].checksums != records[l].checksums)
  }

  /** Setting the penalty, the time and the clamped 15 bit offset. */
  function Increased(rec: Record, value: nat, known: bool, now: int): Record
    requires known ==> value > 0 && rec.lastPenalty <= now
  {
    var penalty := (if known then value - 1 else value) % PENALTY_RANGE;
    var last := if known then rec.lastPenalty else now;
    if now - last >= UPDATE_RANGE then
      rec.(penalty := penalty, lastUpdate := UPDATE_RANGE - 1, lastPenalty := now - (UPDATE_RANGE - 1))
    else
      rec.(penalty := penalty, lastPenalty := last, lastUpdate := now - last)
  }

  /** The time of the last update survives the clamp, and the rest is what the model says. */
  lemma IncreasedEncodes(records: map<string, Record>, model: map<string, Entry>, now: int, ident: string,
                         checksum: nat, value: nat, rec: Record, known: bool)
    requires Faithful(records, model, now) && (checksum != 0 ==> value > 0)
    requires ident in records ==> rec == records[ident]
    requires ident !in records ==> forall k :: k in records ==> records[k].checksums != rec.checksums
    requires known <==> checksum != 0 && checksum in Top(Seen(model, ident))
    ensures Faithful(records[ident := Increased(rec, value, known, now)], Inced(model, ident, checksum, value, now),
                     now)
    ensures records.Keys + {ident} == Inced(model, ident, checksum, value, now).Keys
    ensures Increased(rec, value, known, now).checksums == rec.checksums
  {
    hide MoveToFront;
    assert ident in records ==> Encodes(rec, model[ident]);
  }

  lemma IncedChanges(model: map<string, Entry>, ident: string, checksum: nat, value: nat, now: int)
    ensures var after := Inced(model, ident, checksum, value, now);
            && Times(after) == Times(model)[ident := now]
            && after.Keys == model.Keys + {ident}
            && (forall k :: k in model && k != ident ==> after[k] == model[k])
            && after[ident].recent == if checksum == 0 then Seen(model, ident)
                                      else MoveToFront(Seen(model, ident), checksum)
  {
    hide Top, MoveToFront;
  }

  lemma StoreKeeps(records: map<string, Record>, model: map<string, Entry>, order: seq<string>, now: int, ident: string,
                   checksum: nat, value: nat, rec: Record, known: bool)
    requires Faithful(records, model, now) && (checksum != 0 ==> value > 0) && Ordered(order, Times(model))
    requires ident in records ==> rec == records[ident]
    requires ident !in records ==> forall k :: k in records ==> records[k].checksums != rec.checksums
    requires known <==> checksum != 0 && checksum in Top(Seen(model, ident))
    ensures (known ==> rec.lastPenalty <= now) && records.Keys == model.Keys
    ensures var records' := records[ident := Increased(rec, value, known, now)];
            var model' := Inced(model, ident, checksum, value, now);
            && Faithful(records', model', now)
            && Ordered(Removed(order, ident) + [ident], Times(model'))
            && model'.Keys == records'.Keys
            && (forall k :: k in model && k != ident ==> model'[k] == model[k])
            && model'[ident].recent
               == (if checksum == 0 then Seen(model, ident) else MoveToFront(Seen(model, ident), checksum))
            && records'[ident].checksums == rec.checksums
  {
    hide MoveToFront, Inced, Increased, Ordered, Removed;
    assert ident in records ==> Encodes(rec, model[ident]);
    MovedToEnd(order, ident, Times(model), now);
    IncreasedEncodes(records, model, now, ident, checksum, value, rec, known);
    IncedChanges(model, ident, checksum, value, now);
  }

  /** The timer is never later than the oldest record's end. */
  ghost predicate InTime(deadline: Option<int>, order: seq<string>, model: map<string, Entry>, secs: nat) {
    deadline.Some? && order != [] && order[0] in model ==> deadline.value <= 1000 * (model[order[0]].updated + secs)
  }

  /** When a timer started now fires; the milliseconds are 32 bits wide. */
  function Due(now: int, secs: nat): int {
    1000 * now + (1000 * secs) % UINT_RANGE
  }

  lemma IncInTime(deadline: Option<int>, order: seq<string>, model: map<string, Entry>, secs: nat, ident: string,
                  checksum: nat, value: nat, now: int)
    requires Ordered(order, Times(model)) && forall k :: k in model ==> model[k].updated <= now
    requires InTime(deadline, order, model, secs) && (deadline.Some? <==> order != [])
    ensures InTime(if deadline.Some? then deadline else Some(Due(now, secs)),
                   Removed(order, ident) + [ident], Inced(model, ident, checksum, value, now), secs)
  {
    MovedToEnd(order, ident, Times(model), now);
    IncedChanges(model, ident, checksum, value, now);
    hide Inced, Removed, Ordered;
    var first := (Removed(order, ident) + [ident])[0];
    var after := Inced(model, ident, checksum, value, now);
    assert first in after ==> after[first].updated == Times(after)[first];
    if order == [] {
      assert Removed(order, ident) == [];
    } else {
      assert Times(model)[order[0]] == model[order[0]].updated;
    }
  }

  lemma NoneLeft(model: map<string, Entry>, secs: nat, now: int)
    requires Ordered([], Times(model))
    ensures Unexpired(model, secs, now) == model
  {
    assert Times(model).Keys == model.Keys;
  }

  lemma StillThere(model: map<string, Entry>, secs: nat, now: int)
    requires Unexpired(model, secs, now) != model
    ensures exists k :: k in model && model[k].updated + secs <= now
  {
    assert (forall k :: k in model ==> model[k].updated + secs > now) ==> Unexpired(model, secs, now) == model;
  }

  lemma OldestFirst(model: map<string, Entry>, order: seq<string>)
    requires Ordered(order, Times(model)) && order != []
    ensures order[0] in model && forall k :: k in model ==> model[order[0]].updated <= model[k].updated
  {
    forall k | k in model
      ensures model[order[0]].updated <= model[k].updated
    {
      assert Times(model)[k] == model[k].updated && k in order;
    }
  }

  /** The oldest record decides: if it is not expired then none is, and otherwise it may go. */
  lemma Oldest(records: map<string, Record>, model: map<string, Entry>, order: seq<string>, now: int, secs: nat)
    requires Ordered(order, Times(model)) && Faithful(records, model, now) && order != []
    ensures var k := order[0];
            && k in records && k in model && model[k].updated <= now
            && records[k].lastPenalty + records[k].lastUpdate == model[k].updated
            && (model[k].updated + secs > now ==> Unexpired(model, secs, now) == model)
            && (model[k].updated + secs <= now ==> Unexpired(model - {k}, secs, now) == Unexpired(model, secs, now))
  {
    OldestFirst(model, order);
    hide Ordered, Times;
    assert Encodes(records[order[0]], model[order[0]]);
  }

  /** Freeing the oldest record. */
  lemma DropOldest(records: map<string, Record>, model: map<string, Entry>, order: seq<string>, now: int)
    requires Ordered(order, Times(model)) && Faithful(records, model, now) && order != []
    ensures Ordered(order[1..], Times(model - {order[0]}))
    ensures Faithful(records - {order[0]}, model - {order[0]}, now)
  {
    hide Encodes;
    assert Ordered(order[1..], Times(model - {order[0]})) by {
      hide Ordered, Faithful;
      DetachAt(order, 0, Times(model));
      assert order[..0] + order[1..] == order[1..];
      assert Times(model - {order[0]}) == Times(model) - {order[0]};
    }
    hide Ordered, Times;
  }

  class Tracker {
    var records: map<string, Record>
    var order: seq<string>
    var expireSecs: nat
    /** When the timer fires, in milliseconds. */
    var deadline: Option<int>
    var now: int
    ghost var model: map<string, Entry>
    ghost var repr: set<Checksums>

    constructor (now: int)
      ensures Valid() && repr == {} && deadline == None && model == map[] && expireSecs == 3600
              && this.now == now
    {
      records, order, expireSecs, deadline, this.now := map[], [], DEFAULT_EXPIRE_SECS, None, now;
      model, repr := map[], {};
    }

    ghost predicate Holding(checksums: Checksums, recent: seq<nat>)
      reads this`repr, repr
    {
      checksums in repr && checksums.Valid() && checksums.recent == recent
    }

    /** The checksum lists hold what the model says. */
    ghost predicate Remembers()
      reads this, repr
    {
      forall k :: k in records ==> k in model && Holding(records[k].checksums, model[k].recent)
    }

    /**
     The list holds exactly the hashed records in the order of their last updates; the timer runs while there are
     any.
     */
    ghost predicate Tracked()
      reads this, repr
    {
      && Ordered(order, Times(model))
      && Faithful(records, model, now)
      && Remembers()
      && (deadline.Some? <==> order != [])
    }

    ghost predicate Valid()
      reads this, repr
    {
      Tracked() && InTime(deadline, order, model, expireSecs)
    }

    /** The record of `ident`, looked up or created, and taken off the list. */
    method Fetch(ident: string) returns (rec: Record)
      requires Tracked()
      modifies this`order
      ensures order == Removed(old(order), ident)
      ensures ident in records ==> rec == records[ident] && rec.checksums in repr
      ensures ident !in records ==> fresh(rec.checksums) && rec.checksums.Valid() && rec.checksums.recent == []
    {
      if ident in records {
        rec := records[ident];
        order := Removed(order, ident);
      } else {
        assert ident !in order;
        var checksums := new Checksums();
        rec := Record(0, 0, 0, checksums);
      }
    }

    /** Puts the updated record back, at the end of the list, and starts the timer if there was none. */
    method Store(ident: string, rec: Record, known: bool, checksum: nat, value: nat, ghost before: seq<string>)
      requires Ordered(before, Times(model)) && Faithful(records, model, now)
      requires order == Removed(before, ident) && (deadline.Some? <==> before != [])
      requires forall k :: k in records && k != ident ==> Holding(records[k].checksums, model[k].recent)
      requires ident in records ==> rec == records[ident]
      requires ident !in records ==> forall k :: k in records ==> records[k].checksums != rec.checksums
      requires known <==> checksum != 0 && checksum in Top(Seen(model, ident))
      requires checksum != 0 ==> value > 0
      requires Holding(rec.checksums,
                       if checksum == 0 then Seen(model, ident) else MoveToFront(Seen(model, ident), checksum))
      modifies this`records, this`order, this`deadline, this`model
      ensures Tracked()
      ensures model == Inced(old(model), ident, checksum, value, now)
      ensures order == Removed(before, ident) + [ident]
      ensures deadline == if old(deadline).Some? then old(deadline) else Some(Due(now, expireSecs))
    {
      hide Ordered, Inced, Increased, Top, MoveToFront, Faithful, Times, Seen, Removed, Holding, Due;
      StoreKeeps(records, model, before, now, ident, checksum, value, rec, known);
      records := records[ident := Increased(rec, value, known, now)];
      model := Inced(model, ident, checksum, value, now);
      order := order + [ident];
      if deadline == None {
        deadline := Some(Due(now, expireSecs));
      }
    }

    /** The record of `ident` is fetched, updated and stored. */
    method Update(ident: string, checksum: nat, value: nat)
      requires Tracked() && (value > 0 || checksum == 0)
      modifies this`records, this`order, this`deadline, this`model, this`repr, repr
      ensures Tracked()
      ensures model == Inced(old(model), ident, checksum, value, now)
      ensures order == Removed(old(order), ident) + [ident]
      ensures deadline == if old(deadline).Some? then old(deadline) else Some(Due(now, expireSecs))
      ensures fresh(repr - old(repr))
    {
      hide Ordered, Inced, Increased, Top, MoveToFront, Encodes, Removed, Times, Checksums.Valid, Due;
      var rec := Fetch(ident);
      var known := false;
      if checksum != 0 {
        known := rec.checksums.See(checksum);
      }
      repr := repr + {rec.checksums};
      Store(ident, rec, known, checksum, value, old(order));
    }

    /** `penalty_inc` */
    method Inc(ident: string, checksum: nat, value: nat)
      requires Tracked() && (value > 0 || checksum == 0) && value <= INT_MAX
      modifies this`records, this`order, this`deadline, this`model, this`repr, repr
      ensures Tracked() && (old(Valid()) ==> Valid())
      ensures model == Inced(old(model), ident, checksum, value, now)
      ensures order == Removed(old(order), ident) + [ident]
      ensures deadline == if old(deadline).Some? then old(deadline)
                          else Some(1000 * now + (1000 * expireSecs) % 0x1_0000_0000)
      ensures fresh(repr - old(repr))
    {
      hide Ordered, Inced, Encodes, Removed, InTime, Times, Remembers;
      if InTime(deadline, order, model, expireSecs) {
        IncInTime(deadline, order, model, expireSecs, ident, checksum, value, now);
      }
      Update(ident, checksum, value);
    }

    /** `penalty_rec_free` of the oldest record. */
    method FreeOldest()
      requires Ordered(order, Times(model)) && Faithful(records, model, now) && Remembers() && order != []
      modifies this`records, this`order, this`model
      ensures Ordered(order, Times(model)) && Faithful(records, model, now) && Remembers()
      ensures order == old(order)[1..] && model == old(model) - {old(order)[0]}
    {
      DropOldest(records, model, order, now);
      hide Ordered, Faithful, Times, Checksums.Valid;
      records, model, order := records - {order[0]}, model - {order[0]}, order[1..];
    }

    /** The loop of `penalty_timeout`. */
    method Expire()
      requires Ordered(order, Times(model)) && Faithful(records, model, now) && Remembers()
      modifies this`records, this`order, this`model
      ensures Ordered(order, Times(model)) && Faithful(records, model, now) && Remembers()
      ensures model == Unexpired(old(model), expireSecs, now)
      ensures exists n :: 0 <= n <= |old(order)| && order == old(order)[n..]
      ensures order != [] && order[0] in model ==> model[order[0]].updated + expireSecs > now
    {
      hide Ordered, Times, Remembers, Faithful, Checksums.Valid, Encodes, Unexpired;
      ghost var n := 0;
      while order != []
        invariant n <= |old(order)| && order == old(order)[n..]
        invariant Ordered(order, Times(model)) && Faithful(records, model, now) && Remembers()
        invariant Unexpired(model, expireSecs, now) == Unexpired(old(model), expireSecs, now)
        decreases |order|
      {
        Oldest(records, model, order, now, expireSecs);
        if records[order[0]].lastPenalty + records[order[0]].lastUpdate > now - expireSecs {
          return;
        }
        FreeOldest();
        n := n + 1;
      }
      NoneLeft(model, expireSecs, now);
    }

    /** `penalty_timeout`: exactly the expired records go, however late or early the timer fires. */
    method Timeout()
      requires Tracked()
      modifies this`records, this`order, this`deadline, this`model
      ensures Valid()
      ensures model == Unexpired(old(model), expireSecs, now)
      ensures forall k :: k in old(model) ==> (k in model <==> old(model)[k].updated + expireSecs > now)
      ensures exists n :: 0 <= n <= |old(order)| && order == old(order)[n..]
      ensures order != [] && 1000 * expireSecs < UINT_RANGE ==>
                deadline.value == 1000 * (model[order[0]].updated + expireSecs)
    {
      UnexpiredMeans(model, expireSecs, now);
      hide Ordered, Times, Faithful, Checksums.Valid, Encodes, Unexpired;
      deadline := None;
      Expire();
      if order != [] {
        Oldest(records, model, order, now, expireSecs);
        var diff := (records[order[0]].lastPenalty + records[order[0]].lastUpdate - (now - expireSecs)) % UINT_RANGE;
        deadline := Some(1000 * now + (1000 * diff) % UINT_RANGE);
        assert (1000 * diff) % UINT_RANGE <= 1000 * diff;
      }
    }

    /** While the timer is not due, no expired record is held. */
    lemma NoneExpired()
      requires Valid() && (deadline.Some? ==> 1000 * now < deadline.value)
      ensures Unexpired(model, expireSecs, now) == model
    {
      if order != [] {
        Oldest(records, model, order, now, expireSecs);
      } else {
        NoneLeft(model, expireSecs, now);
      }
    }

    /** At some moment from now on the timer is not yet due, and a record that has expired is still held. */
    ghost predicate Outlives()
      reads this
    {
      exists t :: now <= t && deadline.Some? && 1000 * t < deadline.value && Unexpired(model, expireSecs, t) != model
    }

    /** A record outlives the setting exactly when its end comes before the timer, and the timer is still to come. */
    lemma OutlivesExactly()
      requires Tracked()
      ensures order != [] ==> order[0] in model
      ensures Outlives() <==> order != [] && 1000 * Max(now, model[order[0]].updated + expireSecs) < deadline.value
    {
      if order == [] {
        NoneLeft(model, expireSecs, now);
      } else {
        OldestFirst(model, order);
        hide Ordered, Faithful, Remembers;
        var oldest := model[order[0]];
        var end := Max(now, oldest.updated + expireSecs);
        assert Unexpired(model, expireSecs, end) != model by {
          assert order[0] !in Unexpired(model, expireSecs, end);
        }
        forall t | Unexpired(model, expireSecs, t) != model
          ensures oldest.updated + expireSecs <= t
        {
          StillThere(model, expireSecs, t);
        }
      }
    }

    /** Changing the setting leaves a timer that is already running.  A setting that is not lowered changes nothing
        for the worse; a lower one lets records outlive it exactly while the timer is later than their end. */
    method SetExpireSecs(secs: nat)
      requires Tracked()
      modifies this`expireSecs
      ensures Tracked() && expireSecs == secs && (order != [] ==> order[0] in model)
      ensures Outlives() <==> order != [] && 1000 * Max(now, model[order[0]].updated + secs) < deadline.value
      ensures Valid() <==> order == [] || deadline.value <= 1000 * (model[order[0]].updated + secs)
      ensures old(Valid()) && secs >= old(expireSecs) ==> Valid() && !Outlives()
    {
      assert order != [] ==> order[0] in Times(model);
      expireSecs := secs;
      OutlivesExactly();
    }

    /** `penalty_get` */
    method Get(ident: string) returns (penalty: nat, lastPenalty: int)
      requires Tracked()
      ensures ident in model ==> penalty == model[ident].penalty && lastPenalty == model[ident].lastPenalty
      ensures ident !in model ==> penalty == 0 && lastPenalty == 0
    {
      if ident !in records {
        return 0, 0;
      }
      return records[ident].penalty, records[ident].lastPenalty;
    }

    /** `penalty_has_checksum` */
    method HasChecksum(ident: string, checksum: nat) returns (known: bool)
      requires Tracked()
      ensures checksum != 0 || ident !in model ==> (known <==> checksum in Top(Seen(model, ident)))
    {
      if ident !in records {
        return false;
      }
      known := records[ident].checksums.Has(checksum);
    }

    /** Time passes. */
    method Tick(secs: nat)
      requires Tracked()
      modifies this`now
      ensures Tracked() && now == old(now) + secs && (old(Valid()) ==> Valid())
    {
      now := now + secs;
    }

    /** Over every run the tracker holds what its events say, and its timer stays in time. */
    method Run(events: seq<Event>)
      requires Valid() && forall e :: e in events ==> e.Legal()
      modifies this, repr
      ensures Valid() && expireSecs == old(expireSecs) && fresh(repr - old(repr))
      ensures (model, now) == Replay(old(model), old(now), expireSecs, events)
    {
      hide Tracked, InTime, Inced, Unexpired;
      var i := 0;
      while i < |events|
        invariant i <= |events| && Valid() && expireSecs == old(expireSecs) && fresh(repr - old(repr))
        invariant Replay(model, now, expireSecs, events[i..]) == Replay(old(model), old(now), expireSecs, events)
      {
        assert events[i..][1..] == events[i + 1..];
        assert events[i].Legal();
        match events[i] {
          case Inc(ident, checksum, value) => Inc(ident, checksum, value);
          case Timer => Timeout();
          case Tick(secs) => Tick(secs);
        }
        i := i + 1;
      }
    }
  }

  datatype Event = Inc(ident: string, checksum: nat, value: nat) | Timer | Tick(secs: nat) {
    predicate Legal() {
      this.Inc? ==> (value > 0 || checksum == 0) && value <= INT_MAX
    }
  }

  ghost function Replay(model: map<string, Entry>, now: int, secs: nat, events: seq<Event>): (map<string, Entry>, int)
    decreases |events|
  {
    if events == [] then (model, now)
    else match events[0]
      case Inc(ident, checksum, value) => Replay(Inced(model, ident, checksum, value, now), now, secs, events[1..])
      case Timer => Replay(Unexpired(model, secs, now), now, secs, events[1..])
      case Tick(t) => Replay(model, now + t, secs, events[1..])
  }

  lemma {:induction false} ReplayLast(model: map<string, Entry>, now: int, secs: nat, events: seq<Event>, e: Event)
    ensures var before := Replay(model, now, secs, events);
            Replay(model, now, secs, events + [e]) == Replay(before.0, before.1, secs, [e])
    decreases |events|
  {
    hide Inced, Unexpired;
    if events == [] {
      assert [] + [e] == [e];
    } else {
      assert (events + [e])[0] == events[0] && (events + [e])[1..] == events[1..] + [e];
      match events[0] {
        case Inc(ident, checksum, value) =>
          ReplayLast(Inced(model, ident, checksum, value, now), now, secs, events[1..], e);
        case Timer => ReplayLast(Unexpired(model, secs, now), now, secs, events[1..], e);
        case Tick(t) => ReplayLast(model, now + t, secs, events[1..], e);
      }
    }
  }

  /** What each event of a run does: an increase is an update of its identity now, and the timer drops what is old. */
  lemma ReplayMeans(model: map<string, Entry>, now: int, secs: nat, events: seq<Event>, e: Event)
    ensures var (before, time), (after, later) :=
              Replay(model, now, secs, events), Replay(model, now, secs, events + [e]);
            match e
            case Inc(ident, checksum, value) =>
              later == time && after == Inced(before, ident, checksum, value, time)
              && ident in after && after[ident].updated == time
            case Timer =>
              later == time && after.Keys <= before.Keys
              && forall k :: k in before ==> (k in after <==> before[k].updated + secs > time)
            case Tick(t) => later == time + t && after == before
  {
    ReplayLast(model, now, secs, events, e);
    assert [e][1..] == [];
    var (before, time) := Replay(model, now, secs, events);
    UnexpiredMeans(before, secs, time);
    if e.Inc? {
      IncedChanges(before, e.ident, e.checksum, e.value, time);
    }
    hide Unexpired, Top, MoveToFront;
  }

  /**
   Lowering the setting under a running timer lets a record outlive it: the timer is not due, but the record has
   expired.
   */
  method LoweredSetting() returns (t: Tracker)
    ensures t.Tracked() && t.deadline.Some? && 1000 * t.now < t.deadline.value
    ensures Unexpired(t.model, t.expireSecs, t.now) != t.model
  {
    hide Tracker.Tracked, Inced, InTime, Removed;
    t := new Tracker(0);
    IncedChanges(t.model, "ip", 0, 1, 0);
    assert Times(Inced(t.model, "ip", 0, 1, 0))["ip"] == Inced(t.model, "ip", 0, 1, 0)["ip"].updated;
    t.Inc("ip", 0, 1);
    t.SetExpireSecs(1);
    t.Tick(1);
    assert t.model["ip"].updated == 0;
    assert "ip" !in Unexpired(t.model, 1, 1);
  }
}
