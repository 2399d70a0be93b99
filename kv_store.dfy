/**
  The state machine that replicated values are applied to: a finite map
  from usize keys to usize values with read, unconditional write and
  compare-and-swap, and the pair of conversions that carry it over the
  wire (keys travel as decimal strings).
 */
module KvStore {
  import opened Common
  import Decimal

  /** The result of a compare-and-swap. */
  datatype Outcome = Ok | Err(code: ErrorCode)

  class KeyValueStore {
    var entries: map<Usize, Usize>

    /** Wraps the given map unchanged. */
    constructor NewWithInner(inner: map<Usize, Usize>)
      ensures entries == inner
    {
      entries := inner;
    }

    function IsEmpty(): (r: bool)
      reads this
      ensures r <==> entries == map[]
    {
      |entries| == 0
    }

    /** The value stored under `key`, or None when the key is absent. */
    function Read(key: Usize): (r: Option<Usize>)
      reads this
      ensures r == None <==> key !in entries
      ensures r.Some? ==> key in entries && entries[key] == r.value
    {
      if key in entries then Some(entries[key]) else None
    }

    /** Unconditional insert: afterwards `key` reads back `value` and no other key changed. */
    method Write(key: Usize, value: Usize)
      modifies this
      ensures entries == old(entries)[key := value]
      ensures Read(key) == Some(value)
      ensures forall k :: k != key ==> Read(k) == old(Read(k))
    {
      entries := entries[key := value];
    }

    /**
      Compare-and-swap. An absent key is an error, a current value other
      than `from` is an error, and in both cases nothing changes; otherwise
      `key` is set to `to`. No key is ever added or removed.
     */
    method Cas(key: Usize, from: Usize, to: Usize) returns (r: Outcome)
      modifies this
      ensures old(Read(key)) == None ==> r == Err(KeyDoesNotExist) && entries == old(entries)
      ensures old(Read(key)).Some? && old(Read(key)).value != from ==>
                r == Err(PreconditionFailed) && entries == old(entries)
      ensures old(Read(key)) == Some(from) ==> r == Ok && entries == old(entries)[key := to]
      ensures r == Ok <==> old(Read(key)) == Some(from)
      ensures entries.Keys == old(entries).Keys
    {
      if key in entries {
        if entries[key] != from {
          return Err(PreconditionFailed);
        }
        entries := entries[key := to];
        r := Ok;
      } else {
        r := Err(KeyDoesNotExist);
      }
    }

    /**
      Emits every entry once, in whatever order the map is walked (the
      ghost `order`), each key as its decimal string. Decoding the output
      gives the map back.
     */
    method Serialize() returns (out: seq<(string, Usize)>, ghost order: seq<Usize>)
      ensures Listing(order, entries)
      ensures out == EntriesFor(order, entries)
      ensures |out| == |entries|
      ensures forall i, j :: 0 <= i < j < |out| ==> out[i].0 != out[j].0
      ensures DecodeEntries(out) == Some(entries)
    {
      var m := entries;
      var remaining := m.Keys;
      out, order := [], [];
      while remaining != {}
        invariant remaining <= m.Keys
        invariant forall k :: k in order ==> k in m && k !in remaining
        invariant forall k :: k in m ==> k in order || k in remaining
        invariant Distinct(order)
        invariant |order| + |remaining| == |m.Keys|
        invariant out == EntriesFor(order, m)
        decreases remaining
      {
        var k :| k in remaining;
        assert |remaining - {k}| + 1 == |remaining|;
        ghost var next := order + [k];
        assert next[..|next| - 1] == order;
        out := out + [(Decimal.Encode(k), m[k])];
        order := next;
        remaining := remaining - {k};
      }
      EntriesForShape(order, m);
      forall i, j | 0 <= i < j < |out| ensures out[i].0 != out[j].0 {
        Decimal.EncodeInjective(order[i], order[j]);
      }
      DecodeListing(order, m);
    }
  }

  /** No key appears twice in `ks`. */
  ghost predicate Distinct(ks: seq<Usize>) {
    forall i, j :: 0 <= i < j < |ks| ==> ks[i] != ks[j]
  }

  /** `ks` lists every key of `m` exactly once. */
  ghost predicate Listing(ks: seq<Usize>, m: map<Usize, Usize>) {
    Distinct(ks) && forall k :: k in ks <==> k in m
  }

  /** The entries emitted for keys `ks` of `m`, in that order. */
  function EntriesFor(ks: seq<Usize>, m: map<Usize, Usize>): seq<(string, Usize)>
    requires forall k :: k in ks ==> k in m
  {
    if ks == [] then []
    else EntriesFor(ks[..|ks| - 1], m) + [(Decimal.Encode(ks[|ks| - 1]), m[ks[|ks| - 1]])]
  }

  /**
    Deserialisation of the incoming entries, taken in the order the
    incoming hash map yields them: each key string is parsed with
    `usize::from_str` and keeps its value; a later entry whose key parses
    to the same number overwrites an earlier one. A key that does not
    parse makes the whole conversion fail (the source panics).
   */
  function DecodeEntries(incoming: seq<(string, Usize)>): (r: Option<map<Usize, Usize>>)
    ensures r.Some? <==> forall i :: 0 <= i < |incoming| ==> Decimal.ParseUsize(incoming[i].0).Some?
  {
    if incoming == [] then Some(map[])
    else
      var last := incoming[|incoming| - 1];
      match DecodeEntries(incoming[..|incoming| - 1])
      case None => None
      case Some(prefix) =>
        match Decimal.ParseUsize(last.0)
        case None => None
        case Some(k) => Some(prefix[k := last.1])
  }

  /** Rebuilds a store from its wire entries; None stands for the panic on a non-numeric key. */
  method Deserialize(incoming: seq<(string, Usize)>) returns (r: Option<KeyValueStore>)
    ensures DecodeEntries(incoming).None? ==> r.None?
    ensures DecodeEntries(incoming).Some? ==>
              r.Some? && fresh(r.value) && r.value.entries == DecodeEntries(incoming).value
  {
    var decoded := DecodeEntries(incoming);
    if decoded.None? {
      r := None;
    } else {
      var store := new KeyValueStore.NewWithInner(decoded.value);
      r := Some(store);
    }
  }

  /** The emitted entries are exactly the listed keys, printed, with their values. */
  lemma {:induction false} EntriesForShape(ks: seq<Usize>, m: map<Usize, Usize>)
    requires forall k :: k in ks ==> k in m
    ensures |EntriesFor(ks, m)| == |ks|
    ensures forall i :: 0 <= i < |ks| ==> EntriesFor(ks, m)[i] == (Decimal.Encode(ks[i]), m[ks[i]])
  {
    if ks != [] {
      EntriesForShape(ks[..|ks| - 1], m);
    }
  }

  /** The entries of `m` whose keys appear in `ks`. */
  function Project(ks: seq<Usize>, m: map<Usize, Usize>): map<Usize, Usize>
    requires forall k :: k in ks ==> k in m
  {
    map k | k in ks :: m[k]
  }

  lemma ProjectSnoc(ks: seq<Usize>, m: map<Usize, Usize>)
    requires ks != [] && forall k :: k in ks ==> k in m
    ensures Project(ks, m) == Project(ks[..|ks| - 1], m)[ks[|ks| - 1] := m[ks[|ks| - 1]]]
  {
  }

  /** Decoding the entries emitted for `ks` gives `m` restricted to the keys in `ks`. */
  lemma {:induction false} DecodeEntriesFor(ks: seq<Usize>, m: map<Usize, Usize>)
    requires forall k :: k in ks ==> k in m
    ensures DecodeEntries(EntriesFor(ks, m)) == Some(Project(ks, m))
  {
    if ks != [] {
      var prefix, k := ks[..|ks| - 1], ks[|ks| - 1];
      DecodeEntriesFor(prefix, m);
      Decimal.ParseEncode(k);
      var es := EntriesFor(ks, m);
      assert es == EntriesFor(prefix, m) + [(Decimal.Encode(k), m[k])];
      assert es[..|es| - 1] == EntriesFor(prefix, m);
      ProjectSnoc(ks, m);
    }
  }

  /** Decoding the entries emitted for a listing of every key of `m` gives `m` back. */
  lemma DecodeListing(ks: seq<Usize>, m: map<Usize, Usize>)
    requires Listing(ks, m)
    ensures DecodeEntries(EntriesFor(ks, m)) == Some(m)
  {
    DecodeEntriesFor(ks, m);
    assert Project(ks, m) == m;
  }

  /**
    A decoded store keeps the value of every incoming entry that no later
    entry overrides; with distinct numeric keys this is every entry.
   */
  lemma {:induction false} DecodeKeepsLast(incoming: seq<(string, Usize)>, i: nat)
    requires i < |incoming| && DecodeEntries(incoming).Some?
    requires forall j :: i < j < |incoming| ==>
               Decimal.ParseUsize(incoming[j].0) != Decimal.ParseUsize(incoming[i].0)
    ensures Decimal.ParseUsize(incoming[i].0).Some?
    ensures Decimal.ParseUsize(incoming[i].0).value in DecodeEntries(incoming).value
    ensures DecodeEntries(incoming).value[Decimal.ParseUsize(incoming[i].0).value] == incoming[i].1
  {
    var n := |incoming|;
    if i < n - 1 {
      var prefix := incoming[..n - 1];
      assert prefix[i] == incoming[i];
      forall j | i < j < |prefix|
        ensures Decimal.ParseUsize(prefix[j].0) != Decimal.ParseUsize(prefix[i].0)
      {
        assert prefix[j] == incoming[j];
      }
      DecodeKeepsLast(prefix, i);
      assert Decimal.ParseUsize(incoming[n - 1].0) != Decimal.ParseUsize(incoming[i].0);
    }
  }

  /** A decoded store holds no key other than those the incoming key strings parse to. */
  lemma {:induction false} DecodeKeysFromIncoming(incoming: seq<(string, Usize)>, k: Usize)
    requires DecodeEntries(incoming).Some? && k in DecodeEntries(incoming).value
    ensures exists i :: 0 <= i < |incoming| && Decimal.ParseUsize(incoming[i].0) == Some(k)
  {
    assert incoming != [];
    var n := |incoming|;
    var prefix := incoming[..n - 1];
    if Decimal.ParseUsize(incoming[n - 1].0) != Some(k) {
      DecodeKeysFromIncoming(prefix, k);
      var i :| 0 <= i < |prefix| && Decimal.ParseUsize(prefix[i].0) == Some(k);
      assert prefix[i] == incoming[i];
    }
  }

  /** Two keys that parse to the same number collapse to one entry; the later one wins. */
  lemma CollidingKeysMerge()
    ensures DecodeEntries([("7", 1), ("07", 2)]) == Some(map[7 := 2])
  {
    Decimal.ParseAcceptsNonCanonical();
    assert Decimal.ParseUsize("7") == Some(7) by {
      Decimal.ParseEncode(7);
    }
    var es: seq<(string, Usize)> := [("7", 1), ("07", 2)];
    assert es[..1] == [("7", 1)] && es[..1][..0] == [];
    assert DecodeEntries(es[..1][..0]) == Some(map[]);
    assert DecodeEntries(es[..1]) == Some(map[7 := 1]);
    assert es[|es| - 1] == ("07", 2) && es[..|es| - 1] == es[..1];
    assert map[7 := 1][7 := 2] == map[7 := 2];
  }

  /** Two competing swaps from the same expected value: the first wins, the second fails with `PreconditionFailed`. */
  method SequentialCasScenario(key: Usize, start: Usize, v1: Usize, v2: Usize)
    requires v1 != start
  {
    var store := new KeyValueStore.NewWithInner(map[]);
    var r0 := store.Cas(key, start, v1);
    assert r0 == Err(KeyDoesNotExist);
    store.Write(key, start);
    var r1 := store.Cas(key, start, v1);
    var r2 := store.Cas(key, start, v2);
    assert r1 == Ok && r2 == Err(PreconditionFailed);
    assert store.Read(key) == Some(v1);
  }
}
