/**
 * The persisted colour store: colour-string normalisation and the pure
 * shaping done after reading and before writing the YAML document.  The
 * document itself is the mapping PyYAML builds: its items in order, keys
 * already distinct as Python values.
 */
module ColorStore {
  import opened Optional
  import opened Json
  import opened Order

  predicate StartsWithHash(s: string) {
    |s| > 0 && s[0] == '#'
  }

  /** `s if s.startswith("#") else f"#{s}"`. */
  function EnsureHash(s: string): (r: string)
    ensures StartsWithHash(r)
    ensures StartsWithHash(s) ==> r == s
    ensures !StartsWithHash(s) ==> |r| == |s| + 1 && r[1..] == s
  {
    if StartsWithHash(s) then s else "#" + s
  }

  /** `normalize_color_for_runtime`: `None` for `None` and for every non-string. */
  function NormalizeForRuntime(color: Value): (r: Option<string>)
    ensures r.Some? <==> color.JStr?
    ensures r.Some? ==> StartsWithHash(r.value)
  {
    match color
    case JNull => None
    case JStr(s) => Some(EnsureHash(s))
    case _ => None
  }

  /** `normalize_color_for_store`, written out separately in the source. */
  function NormalizeForStore(color: Value): (r: Option<string>)
    ensures r.Some? <==> color.JStr?
    ensures r.Some? ==> StartsWithHash(r.value)
  {
    if color == JNull then None
    else if !color.JStr? then None
    else if StartsWithHash(color.s) then Some(color.s)
    else Some("#" + color.s)
  }

  /** Both normalisers compute the same function. */
  lemma NormalizersAgree(color: Value)
    ensures NormalizeForRuntime(color) == NormalizeForStore(color)
  {
  }

  /** Normalising an already normalised colour changes nothing. */
  lemma NormalizeIdempotent(color: Value)
    ensures var r := NormalizeForRuntime(color);
      r.Some? ==> NormalizeForRuntime(JStr(r.value)) == r
  {
  }

  /** The normaliser only ever adds one `#` in front: stripping one leading `#`
      from the result gives back the input unless the input had its own `#`. */
  lemma NormalizeAddsOneHash(s: string)
    ensures StartsWithHash(s) ==> NormalizeForRuntime(JStr(s)) == Some(s)
    ensures !StartsWithHash(s) ==> NormalizeForRuntime(JStr(s)).value[1..] == s
  {
  }

  /** One store entry: `{"name": name, "color": color}`; a missing key reads as `None`. */
  datatype Entry = Entry(name: Value, color: Option<string>)

  type Store = map<int, Entry>

  /** The YAML document: a mapping's items, or anything else (including an empty
      or unreadable file, which `or {}` turns into an empty mapping). */
  datatype Document = Mapping(items: seq<(Value, Value)>) | NotAMapping

  /** The entry read from one mapping value `val` (a dict). */
  function EntryOf(val: Value): (e: Entry)
    requires val.JObj?
    ensures e.color == NormalizeForRuntime(Get(val, "color").GetOr(JNull))
    ensures "name" in val.fields ==> e.name == val.fields["name"]
    ensures "name" !in val.fields ==> e.name == JNull
  {
    Entry(Get(val, "name").GetOr(JNull), NormalizeForRuntime(Get(val, "color").GetOr(JNull)))
  }

  /** Item `item` stores an entry under id `eid`. */
  predicate Accepts(item: (Value, Value), eid: int) {
    item.1.JObj? && PyInt(item.0) == Some(eid)
  }

  /** The loop of `load_color_store` over the items, in order. */
  function LoadItems(items: seq<(Value, Value)>): (out: Store)
    ensures forall eid :: eid in out ==> out[eid].color.Some? ==> StartsWithHash(out[eid].color.value)
  {
    if items == [] then map[]
    else
      var n := |items| - 1;
      var front := LoadItems(items[..n]);
      var (key, val) := items[n];
      match PyInt(key)
      case None => front
      case Some(eid) => if val.JObj? then front[eid := EntryOf(val)] else front
  }

  /** Post-processing of `load_color_store`: a non-mapping document loads as empty. */
  function LoadStore(doc: Document): (out: Store)
    ensures doc.NotAMapping? ==> out == map[]
    ensures forall eid :: eid in out ==> out[eid].color.Some? ==> StartsWithHash(out[eid].color.value)
  {
    match doc
    case NotAMapping => map[]
    case Mapping(items) => LoadItems(items)
  }

  /** One more item either stores `eid` or leaves what was loaded for it alone. */
  lemma LoadItemsStep(items: seq<(Value, Value)>, eid: int)
    requires items != []
    ensures var n := |items| - 1; var front := LoadItems(items[..n]);
      if Accepts(items[n], eid) then
        eid in LoadItems(items) && LoadItems(items)[eid] == EntryOf(items[n].1)
      else
        (eid in LoadItems(items) <==> eid in front) &&
        (eid in front ==> LoadItems(items)[eid] == front[eid])
  {
  }

  /** An id is loaded exactly when some item stores it. */
  lemma {:induction false} LoadItemsFound(items: seq<(Value, Value)>, eid: int)
    ensures eid in LoadItems(items) <==> exists i :: 0 <= i < |items| && Accepts(items[i], eid)
  {
    if items != [] {
      var n := |items| - 1;
      LoadItemsFound(items[..n], eid);
      LoadItemsStep(items, eid);
      if !Accepts(items[n], eid) {
        if exists i :: 0 <= i < |items| && Accepts(items[i], eid) {
          var i :| 0 <= i < |items| && Accepts(items[i], eid);
          assert items[..n][i] == items[i];
        }
        if eid in LoadItems(items) {
          var i :| 0 <= i < n && Accepts(items[..n][i], eid);
          assert items[i] == items[..n][i];
        }
      }
    }
  }

  /** The entry loaded for an id is the one the last item storing it gives. */
  lemma {:induction false} LoadItemsLastWins(items: seq<(Value, Value)>, eid: int)
    ensures eid in LoadItems(items) ==>
      exists i :: 0 <= i < |items| && Accepts(items[i], eid) &&
        LoadItems(items)[eid] == EntryOf(items[i].1) &&
        forall j :: i < j < |items| ==> !Accepts(items[j], eid)
  {
    if items != [] {
      var n := |items| - 1;
      var front := items[..n];
      LoadItemsStep(items, eid);
      if !Accepts(items[n], eid) && eid in LoadItems(items) {
        LoadItemsLastWins(front, eid);
        var i :| 0 <= i < n && Accepts(front[i], eid) &&
          LoadItems(front)[eid] == EntryOf(front[i].1) &&
          forall j :: i < j < n ==> !Accepts(front[j], eid);
        assert items[i] == front[i];
        forall j | i < j < |items|
          ensures !Accepts(items[j], eid)
        {
          if j < n { assert items[j] == front[j]; }
        }
      }
    }
  }

  /** The shaping loop of `save_color_store`: a dict contributes its `name` and
      `color`, any other value is taken as a bare colour with no name. */
  function ShapeEntry(val: Value): (e: Entry)
    ensures !val.JObj? ==> e == Entry(JNull, NormalizeForStore(val))
    ensures val.JObj? ==> e.color == NormalizeForStore(Get(val, "color").GetOr(JNull))
    ensures e.color.Some? ==> StartsWithHash(e.color.value)
  {
    if val.JObj? then Entry(Get(val, "name").GetOr(JNull), NormalizeForStore(Get(val, "color").GetOr(JNull)))
    else Entry(JNull, NormalizeForStore(val))
  }

  /** `dumpable`: every key of `mapping`, each with its shaped entry. */
  function SaveShape(mapping: map<int, Value>): (dumpable: Store)
    ensures dumpable.Keys == mapping.Keys
    ensures forall eid :: eid in dumpable ==> dumpable[eid] == ShapeEntry(mapping[eid])
  {
    map eid | eid in mapping :: ShapeEntry(mapping[eid])
  }

  /** An entry written out as the dict `{"name": ..., "color": ...}`. */
  function EntryValue(e: Entry): Value {
    JObj(map["name" := e.name, "color" := match e.color case None => JNull case Some(s) => JStr(s)])
  }

  /** What reading back the YAML dump of `dumpable` yields when the dump lists
      the ids in the order `ids`: integer keys, each entry as a dict. */
  function Dump(dumpable: Store, ids: seq<int>): (doc: Document)
    requires forall i :: 0 <= i < |ids| ==> ids[i] in dumpable
    ensures doc.Mapping? && |doc.items| == |ids|
  {
    Mapping(seq(|ids|, i requires 0 <= i < |ids| => (JNum(ids[i] as real), EntryValue(dumpable[ids[i]]))))
  }

  /** Reading an entry back from its dict gives the entry, once its colour is normalised. */
  lemma EntryRoundTrip(e: Entry)
    requires e.color.Some? ==> StartsWithHash(e.color.value)
    ensures EntryOf(EntryValue(e)) == e
  {
  }

  /** Loading a saved store gives back exactly what was saved. */
  lemma SaveThenLoad(mapping: map<int, Value>, ids: seq<int>)
    requires Distinct(ids)
    requires forall i :: 0 <= i < |ids| ==> ids[i] in mapping
    requires forall eid :: eid in mapping ==> eid in ids
    ensures LoadStore(Dump(SaveShape(mapping), ids)) == SaveShape(mapping)
  {
    var dumpable := SaveShape(mapping);
    var items := Dump(dumpable, ids).items;
    forall i | 0 <= i < |ids|
      ensures PyInt(items[i].0) == Some(ids[i]) && items[i].1.JObj?
    {
      PyIntOfWhole(ids[i]);
    }
    forall eid | true
      ensures eid in LoadItems(items) <==> eid in dumpable
      ensures eid in dumpable ==> LoadItems(items)[eid] == dumpable[eid]
    {
      LoadItemsFound(items, eid);
      LoadItemsLastWins(items, eid);
      if eid in dumpable {
        var k :| 0 <= k < |ids| && ids[k] == eid;
        assert Accepts(items[k], eid);
      }
      if eid in LoadItems(items) {
        var i :| 0 <= i < |items| && Accepts(items[i], eid) &&
          LoadItems(items)[eid] == EntryOf(items[i].1) &&
          forall j :: i < j < |items| ==> !Accepts(items[j], eid);
        assert ids[i] == eid;
        EntryRoundTrip(dumpable[eid]);
      }
    }
  }

  /** A colour saved under `eid` comes back normalised. */
  lemma SavedColorComesBack(mapping: map<int, Value>, ids: seq<int>, eid: int)
    requires Distinct(ids)
    requires forall i :: 0 <= i < |ids| ==> ids[i] in mapping
    requires forall eid :: eid in mapping ==> eid in ids
    requires eid in mapping && !mapping[eid].JObj?
    ensures var loaded := LoadStore(Dump(SaveShape(mapping), ids));
      eid in loaded && loaded[eid].color == NormalizeForRuntime(mapping[eid])
  {
    var color := mapping[eid];
    SaveThenLoad(mapping, ids);
    NormalizersAgree(color);
  }
}
