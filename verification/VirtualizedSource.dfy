/** The gallery's virtualized data source: stable keys over a list that grows at the front. */
module VirtualizedSource {
  import opened Common
  import Decimal

  const BASE_COUNT: nat := 100_000
  const NEW_BASE: nat := 1_000_000
  const WORD: nat := 0x1_0000_0000_0000_0000

  // No vector of 64-bit values holds more.
  const MAX_IDS: nat := 0xfff_ffff_ffff_ffff

  /* ---------- values and keys ---------- */

  function Count(ids: seq<nat>): nat {
    BASE_COUNT + |ids|
  }

  function LogicalValue(ids: seq<nat>, index: nat): nat
    requires index < Count(ids)
  {
    if index < |ids| then NEW_BASE + ids[index] else index - |ids|
  }

  const ITEM: string := "item-"
  const NEW: string := "new-"

  function KeyOf(value: nat): string {
    if value >= NEW_BASE then NEW + Decimal.Print(value - NEW_BASE) else ITEM + Decimal.Print(value)
  }

  function KeyAt(ids: seq<nat>, index: nat): string
    requires index < Count(ids)
  {
    KeyOf(LogicalValue(ids, index))
  }

  // std::from_chars on a 64-bit unsigned integer, reading everything.
  function ParseUnsigned(s: string): Option<nat> {
    if s != "" && Decimal.AllDigits(s) && Decimal.Value(s) < WORD then Some(Decimal.Value(s)) else None
  }

  // The first position of an id, or the length.
  function Find(ids: seq<nat>, id: nat): (r: nat)
    ensures r <= |ids| && (r < |ids| ==> ids[r] == id) && forall i :: 0 <= i < r ==> ids[i] != id
  {
    if ids == [] || ids[0] == id then 0 else 1 + Find(ids[1..], id)
  }

  function IndexOfKey(ids: seq<nat>, key: string): Option<nat> {
    if ITEM <= key then
      var value := ParseUnsigned(key[|ITEM|..]);
      if value.None? || value.value >= BASE_COUNT then None else Some(value.value + |ids|)
    else if NEW <= key then
      var value := ParseUnsigned(key[|NEW|..]);
      if value.None? || Find(ids, value.value) == |ids| then None else Some(Find(ids, value.value))
    else None
  }

  // Ids are handed out once, in order, and never taken back.
  ghost predicate IdsOk(ids: seq<nat>, next: nat) {
    && |ids| == next <= MAX_IDS
    && (forall i :: 0 <= i < |ids| ==> ids[i] < next)
    && (forall i, j :: 0 <= i < j < |ids| ==> ids[i] != ids[j])
  }

  lemma PrintedParses(n: nat)
    requires n < WORD
    ensures ParseUnsigned(Decimal.Print(n)) == Some(n)
  {
    Decimal.PrintIsNumeral(n);
  }

  lemma KeyParts(value: nat)
    ensures value < NEW_BASE ==> ITEM <= KeyOf(value) && KeyOf(value)[|ITEM|..] == Decimal.Print(value)
    ensures value >= NEW_BASE ==>
              NEW <= KeyOf(value) && !(ITEM <= KeyOf(value)) && KeyOf(value)[|NEW|..] == Decimal.Print(value - NEW_BASE)
  {
    if value >= NEW_BASE {
      assert KeyOf(value)[0] == 'n';
    }
  }

  /** Looking up the key of a valid index gives the index back. */
  lemma KeyRoundTrip(ids: seq<nat>, next: nat, index: nat)
    requires IdsOk(ids, next) && index < Count(ids)
    ensures IndexOfKey(ids, KeyAt(ids, index)) == Some(index)
  {
    var value := LogicalValue(ids, index);
    KeyParts(value);
    if index < |ids| {
      PrintedParses(ids[index]);
      var found := Find(ids, ids[index]);
      assert found == index;
    } else {
      PrintedParses(value);
    }
  }

  // Different indexes have different keys.
  lemma KeysDistinct(ids: seq<nat>, next: nat, i: nat, j: nat)
    requires IdsOk(ids, next) && i < Count(ids) && j < Count(ids) && KeyAt(ids, i) == KeyAt(ids, j)
    ensures i == j
  {
    KeyRoundTrip(ids, next, i);
    KeyRoundTrip(ids, next, j);
  }

  /** The keys: inserted items by their identifiers, the others by their number. */
  lemma KeysAre(ids: seq<nat>, index: nat)
    requires index < Count(ids)
    ensures KeyAt(ids, index) ==
            if index < |ids| then "new-" + Decimal.Print(ids[index]) else "item-" + Decimal.Print(index - |ids|)
    ensures Count(ids) == 100000 + |ids|
  {
  }

  // The key reads, with k zeros in front of the numeral, as item n of the base or as inserted item n.
  ghost predicate Denotes(ids: seq<nat>, key: string, index: nat, k: nat, n: nat) {
    || (key == "item-" + (Decimal.Zeros(k) + Decimal.Print(n)) && n < 100000 && index == n + |ids|)
    || (key == "new-" + (Decimal.Zeros(k) + Decimal.Print(n)) && index < |ids| && ids[index] == n)
  }

  /** A key is found at an index exactly when it denotes that index's item; zeros in
      front of its numeral do not matter. */
  lemma FoundExactly(ids: seq<nat>, next: nat, key: string, index: nat)
    requires IdsOk(ids, next)
    ensures IndexOfKey(ids, key) == Some(index) <==> exists k: nat, n: nat :: Denotes(ids, key, index, k, n)
  {
    if IndexOfKey(ids, key) == Some(index) {
      var digits := key[if "item-" <= key then 5 else 4..];
      var k := Decimal.DigitsAre(digits);
      assert key == (if "item-" <= key then "item-" else "new-") + digits;
      assert Denotes(ids, key, index, k, Decimal.Value(digits));
    }
    forall k: nat, n: nat | Denotes(ids, key, index, k, n)
      ensures IndexOfKey(ids, key) == Some(index)
    {
      DenotedIsFound(ids, next, key, index, k, n);
    }
  }

  lemma DenotedIsFound(ids: seq<nat>, next: nat, key: string, index: nat, k: nat, n: nat)
    requires IdsOk(ids, next) && Denotes(ids, key, index, k, n)
    ensures IndexOfKey(ids, key) == Some(index)
  {
    var digits := Decimal.Zeros(k) + Decimal.Print(n);
    Decimal.ZerosAdd(k, n);
    if key == "item-" + digits {
      assert key[5..] == digits;
    } else {
      assert key[0] == 'n' && key[4..] == digits;
      assert Find(ids, n) == index;
    }
  }

  // The digits of a key, after its prefix.
  function Digits(key: string): string {
    if ITEM <= key then key[|ITEM|..] else if NEW <= key then key[|NEW|..] else ""
  }

  /** A key that is found denotes the item at the index found, and it is that
      item's own key exactly when its number has no leading zeros. */
  lemma FoundKey(ids: seq<nat>, next: nat, key: string)
    requires IdsOk(ids, next) && IndexOfKey(ids, key).Some?
    ensures IndexOfKey(ids, key).value < Count(ids)
    ensures KeyAt(ids, IndexOfKey(ids, key).value) == key <==>
            Decimal.AllDigits(Digits(key)) && Digits(key) == Decimal.Print(Decimal.Value(Digits(key)))
  {
    var index := IndexOfKey(ids, key).value;
    var value := LogicalValue(ids, index);
    KeyParts(value);
    if ITEM <= key {
      assert key == ITEM + Digits(key);
      assert value == Decimal.Value(Digits(key));
    } else {
      assert key == NEW + Digits(key);
      assert value == NEW_BASE + Decimal.Value(Digits(key));
    }
    assert Digits(KeyAt(ids, index)) == Decimal.Print(Decimal.Value(Digits(key)));
  }

  /* ---------- prepending ---------- */

  function NewIds(next: nat, count: nat): (r: seq<nat>)
    ensures |r| == count && forall i :: 0 <= i < count ==> r[i] == next + i
  {
    seq(count, i => next + i)
  }

  lemma PrependKeepsIds(ids: seq<nat>, next: nat, count: nat)
    requires IdsOk(ids, next) && next + count <= MAX_IDS
    ensures IdsOk(NewIds(next, count) + ids, next + count)
  {
  }

  /** Prepending moves every existing key up by exactly the number of new items. */
  lemma PrependShifts(ids: seq<nat>, next: nat, count: nat, index: nat)
    requires IdsOk(ids, next) && next + count <= MAX_IDS && index < Count(ids)
    ensures var more := NewIds(next, count) + ids;
      && KeyAt(more, index + count) == KeyAt(ids, index)
      && IndexOfKey(more, KeyAt(ids, index)) == Some(index + count)
  {
    var more := NewIds(next, count) + ids;
    assert LogicalValue(more, index + count) == LogicalValue(ids, index);
    PrependKeepsIds(ids, next, count);
    KeyRoundTrip(more, next + count, index + count);
  }

  // Any key that was found is found again, `count` places further on.
  lemma PrependShiftsAnyKey(ids: seq<nat>, next: nat, count: nat, key: string)
    requires IdsOk(ids, next) && next + count <= MAX_IDS && IndexOfKey(ids, key).Some?
    ensures IndexOfKey(NewIds(next, count) + ids, key) == Some(IndexOfKey(ids, key).value + count)
  {
    var more := NewIds(next, count) + ids;
    if !(ITEM <= key) {
      var id := Decimal.Value(key[|NEW|..]);
      var found := Find(ids, id);
      assert more[count + found] == id;
      assert forall i :: 0 <= i < count ==> more[i] >= next > id;
      assert forall i :: 0 <= i < found ==> more[count + i] == ids[i];
      var again := Find(more, id);
      assert again >= count;
      assert more[again] == ids[again - count];
    }
  }

  /** Behind a loaded range that is kept, prepending puts the new items first and
      moves the old ones up; no index keeps its item unless nothing is prepended. */
  lemma PrependMovesItems(ids: seq<nat>, next: nat, count: nat, index: nat)
    requires IdsOk(ids, next) && next + count <= MAX_IDS && index < Count(ids)
    ensures var more := NewIds(next, count) + ids;
      && (index < count ==> LogicalValue(more, index) == NEW_BASE + next + index)
      && (index >= count ==> LogicalValue(more, index) == LogicalValue(ids, index - count))
      && (LogicalValue(more, index) == LogicalValue(ids, index) <==> count == 0)
  {
    var more := NewIds(next, count) + ids;
    if index >= count {
      MovedUp(ids, next, count, index);
      if count > 0 {
        ItemsDiffer(ids, next, index - count, index);
      }
    } else {
      assert more[index] == next + index;
    }
  }

  lemma MovedUp(ids: seq<nat>, next: nat, count: nat, index: nat)
    requires count <= index < Count(ids)
    ensures LogicalValue(NewIds(next, count) + ids, index) == LogicalValue(ids, index - count)
  {
  }

  lemma ItemsDiffer(ids: seq<nat>, next: nat, i: nat, j: nat)
    requires IdsOk(ids, next) && i < j < Count(ids)
    ensures LogicalValue(ids, i) != LogicalValue(ids, j)
  {
  }

  /* ---------- the source ---------- */

  datatype Range = Range(first: nat, count: nat)

  datatype Error = ResourceFailed | InvalidArgument

  class GalleryVirtualizedSource {
    var insertedIds: seq<nat>
    var nextInsertedId: nat
    var revision: nat
    var loadedRange: Option<Range>

    ghost predicate Valid()
      reads this
    {
      && IdsOk(insertedIds, nextInsertedId) && revision < WORD
      && (loadedRange.Some? ==> loadedRange.value.first + loadedRange.value.count <= Count(insertedIds))
    }

    constructor ()
      ensures Valid() && insertedIds == [] && revision == 1 && loadedRange == None
    {
      insertedIds, nextInsertedId, revision, loadedRange := [], 0, 1, None;
    }

    /** Loaded indexes are never out of bounds, and the item of one is the item
        whose key leads back to it. */
    method ItemAt(index: nat) returns (r: Result<nat, Error>)
      requires Valid()
      ensures r.Ok? <==>
              loadedRange.Some? &&
              loadedRange.value.first <= index < loadedRange.value.first + loadedRange.value.count
      ensures r.Ok? ==> IndexOfKey(insertedIds, KeyOf(r.value)) == Some(index)
      ensures r.Ok? ==>
                index < 100000 + |insertedIds| &&
                r.value == if index < |insertedIds| then 1000000 + insertedIds[index] else index - |insertedIds|
      ensures r.Err? ==> r.error == ResourceFailed
    {
      if index >= BASE_COUNT + |insertedIds| || loadedRange.None? || index < loadedRange.value.first ||
         index >= loadedRange.value.first + loadedRange.value.count {
        return Err(ResourceFailed);
      }
      KeyRoundTrip(insertedIds, nextInsertedId, index);
      return Ok(LogicalValue(insertedIds, index));
    }

    method RequestRange(range: Range) returns (r: Result<(), Error>)
      requires Valid()
      modifies this`loadedRange
      ensures Valid()
      ensures r == if range.first + range.count <= 100000 + |insertedIds| then Ok(()) else Err(InvalidArgument)
      ensures loadedRange == if r.Ok? then Some(range) else old(loadedRange)
    {
      if range.first > Count(insertedIds) || range.count > Count(insertedIds) - range.first {
        return Err(InvalidArgument);
      }
      loadedRange := Some(range);
      return Ok(());
    }

    method Key(index: nat) returns (r: Result<string, Error>)
      requires Valid()
      ensures r.Ok? ==> IndexOfKey(insertedIds, r.value) == Some(index)
      ensures r == if index < |insertedIds| then Ok("new-" + Decimal.Print(insertedIds[index]))
                   else if index < 100000 + |insertedIds| then Ok("item-" + Decimal.Print(index - |insertedIds|))
                   else Err(InvalidArgument)
    {
      if index >= BASE_COUNT + |insertedIds| {
        return Err(InvalidArgument);
      }
      var value := if index < |insertedIds| then NEW_BASE + insertedIds[index] else index - |insertedIds|;
      KeyRoundTrip(insertedIds, nextInsertedId, index);
      KeysAre(insertedIds, index);
      var prefix := if value >= NEW_BASE then NEW else ITEM;
      return Ok(prefix + Decimal.Print(if value >= NEW_BASE then value - NEW_BASE else value));
    }

    method Index(key: string) returns (r: Option<nat>)
      requires Valid()
      ensures r == IndexOfKey(insertedIds, key)
    {
      var prefix := if ITEM <= key then ITEM else if NEW <= key then NEW else "";
      if prefix == "" {
        return None;
      }
      var parsed := ParseUnsigned(key[|prefix|..]);
      if parsed.None? {
        return None;
      }
      var value := parsed.value;
      if !(ITEM <= key) {
        var found := Find(insertedIds, value);
        return if found == |insertedIds| then None else Some(found);
      }
      var index := value + |insertedIds|;
      return if value < BASE_COUNT then Some(index) else None;
    }

    method Prepend(count: nat)
      requires Valid() && nextInsertedId + count <= MAX_IDS
      modifies this`insertedIds, this`nextInsertedId, this`revision
      ensures Valid()
      ensures insertedIds == NewIds(old(nextInsertedId), count) + old(insertedIds)
      ensures revision == (old(revision) + 1) % WORD
      ensures forall i :: 0 <= i < Count(old(insertedIds)) ==>
                KeyAt(insertedIds, i + count) == KeyAt(old(insertedIds), i)
    {
      var inserted: seq<nat> := [];
      ghost var start := nextInsertedId;
      for index := 0 to count
        invariant nextInsertedId == start + index && inserted == NewIds(start, index)
        invariant insertedIds == old(insertedIds) && revision == old(revision)
      {
        inserted := inserted + [nextInsertedId];
        nextInsertedId := nextInsertedId + 1;
      }
      PrependKeepsIds(insertedIds, start, count);
      insertedIds := inserted + insertedIds;
      revision := (revision + 1) % WORD;
    }
  }
}
