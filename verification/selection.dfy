/**
 * The small loops of the command-line driver: choosing the empires to process
 * from the empire list, and finding the capital claims still to fetch.
 */
module Selection {
  import opened Optional
  import opened Json
  import opened PyText
  import opened BoundedScan
  import opened Order
  import opened Towers

  /** `(eid, name)`; the name is whatever the entry's `name` holds. */
  datatype Selected = Selected(eid: int, name: Value)

  /** The owner key `(eid, name)` the rest of the pipeline works with, for a
      selected empire whose name is a string. */
  function ToOwner(sel: Selected): (o: Owner)
    requires sel.name.JStr?
    ensures o.id == sel.eid && JStr(o.name) == sel.name
  {
    Owner(sel.eid, sel.name.s)
  }

  /** One entry of the empire list: a non-dict raises on `.get`; a missing,
      `null` or non-integer `entityId` skips the entry; the name defaults to
      `empire-<eid>` only when the key is absent. */
  function EntryVerdict(entry: Value): (v: Verdict<Selected>)
    ensures v.Raise? <==> !entry.JObj?
    ensures v.Keep? <==> entry.JObj? && HasNonNull(entry, "entityId") && PyInt(entry.fields["entityId"]).Some?
    ensures v.Keep? ==> v.value.eid == PyInt(entry.fields["entityId"]).value
    ensures v.Keep? && "name" in entry.fields ==> v.value.name == entry.fields["name"]
    ensures v.Keep? && "name" !in entry.fields ==> v.value.name == JStr("empire-" + ShowInt(v.value.eid))
  {
    if !entry.JObj? then Raise
    else
      var eid := Get(entry, "entityId").GetOr(JNull);
      if eid == JNull then Skip
      else
        match PyInt(eid)
        case None => Skip
        case Some(id) => Keep(Selected(id, Get(entry, "name").GetOr(JStr("empire-" + ShowInt(id)))))
  }

  /** The selection loop over the decoded empire list; `None` when it raises. */
  method SelectEmpires(empires: Value, limitEmpires: int) returns (r: Option<seq<Selected>>)
    ensures r == ScanResult(Walk(empires, EntryVerdict), limitEmpires)
    ensures r.Some? && limitEmpires > 0 ==> |r.value| <= limitEmpires
    ensures r.Some? ==> forall k :: 0 <= k < |r.value| ==>
      exists i :: 0 <= i < |Walk(empires, EntryVerdict)| && Walk(empires, EntryVerdict)[i] == Keep(r.value[k])
  {
    var vs := Walk(empires, EntryVerdict);
    r := Scan(vs, limitEmpires);
    if r.Some? && limitEmpires > 0 {
      ScanRespectsCap(vs, limitEmpires);
    }
    if r.Some? {
      ScanKeepsItemOrder(vs, limitEmpires);
      var ps := KeptPositions(vs[..FirstRaise(vs)]);
      forall k | 0 <= k < |r.value|
        ensures exists i :: 0 <= i < |vs| && vs[i] == Keep(r.value[k])
      {
        assert vs[ps[k]] == Keep(r.value[k]);
      }
    }
  }

  /** Selection with a limit is the unlimited selection cut to the limit,
      provided no entry raises. */
  lemma LimitIsPrefix(empires: Value, limitEmpires: int)
    requires limitEmpires > 0
    requires ScanResult(Walk(empires, EntryVerdict), 0).Some?
    ensures var all := ScanResult(Walk(empires, EntryVerdict), 0).value;
      ScanResult(Walk(empires, EntryVerdict), limitEmpires) ==
        Some(if |all| >= limitEmpires then all[..limitEmpires] else all)
  {
  }

  /** A key of the claims map: `int(x)` when that works, the string otherwise. */
  datatype ClaimKey = IntKey(id: int) | StrKey(text: string)

  /** What one empire's details add to the set of needed capital claims. */
  datatype CapitalLookup = NoCapital | Capital(key: ClaimKey) | Unhashable

  /** `info.get("capitalClaimId")`, with `None` for a missing key and for an
      `info` that is not a dict. */
  function CapitalId(info: Value): (x: Value)
    ensures info.JObj? && "capitalClaimId" in info.fields ==> x == info.fields["capitalClaimId"]
    ensures !info.JObj? || "capitalClaimId" !in info.fields ==> x == JNull
  {
    if info.JObj? then Get(info, "capitalClaimId").GetOr(JNull) else JNull
  }

  /** What adding the capital id to a set does: nothing for a falsy id, its
      `int()` when that works, a `str` as itself, and a `TypeError` for a list
      or a dict. */
  function CapitalKey(info: Value): (c: CapitalLookup)
    ensures c.NoCapital? <==> !Truthy(CapitalId(info))
    ensures Truthy(CapitalId(info)) && PyInt(CapitalId(info)).Some? ==>
      c == Capital(IntKey(PyInt(CapitalId(info)).value))
    ensures Truthy(CapitalId(info)) && PyInt(CapitalId(info)).None? && CapitalId(info).JStr? ==>
      c == Capital(StrKey(CapitalId(info).s))
    ensures c.Unhashable? <==> Truthy(CapitalId(info)) && (CapitalId(info).JList? || CapitalId(info).JObj?)
  {
    var capid := CapitalId(info);
    if !Truthy(capid) then NoCapital
    else
      match PyInt(capid)
      case Some(k) => Capital(IntKey(k))
      case None => if capid.JStr? then Capital(StrKey(capid.s)) else Unhashable
  }

  /** The set built by adding `key(info)` for each `info` in turn; `None`
      once an addition raises. */
  function Needed(infos: seq<Value>, key: Value -> CapitalLookup): (r: Option<set<ClaimKey>>)
    ensures r.None? <==> exists i :: 0 <= i < |infos| && key(infos[i]).Unhashable?
    ensures r.Some? ==> forall k :: k in r.value <==> exists i :: 0 <= i < |infos| && key(infos[i]) == Capital(k)
  {
    if infos == [] then Some({})
    else
      var n := |infos| - 1;
      var front := Needed(infos[..n], key);
      assert forall i :: 0 <= i < n ==> infos[..n][i] == infos[i];
      match key(infos[n])
      case Unhashable => None
      case NoCapital => front
      case Capital(k) => if front.None? then None else Some(front.value + {k})
  }

  /** `capital_ids_needed` over the details of the owning empires; `None` when
      adding an id raises. */
  function NeededCapitalIds(infos: seq<Value>): (r: Option<set<ClaimKey>>)
    ensures r.None? <==> exists i :: 0 <= i < |infos| && CapitalKey(infos[i]).Unhashable?
    ensures r.Some? ==> forall k :: k in r.value <==> exists i :: 0 <= i < |infos| && CapitalKey(infos[i]) == Capital(k)
  {
    Needed(infos, CapitalKey)
  }

  /** `remaining`: the needed capital ids that are not yet keys of the claims map. */
  method RemainingClaimIds(infos: seq<Value>, claimKeys: set<ClaimKey>) returns (r: Option<seq<ClaimKey>>)
    ensures r.None? <==> exists i :: 0 <= i < |infos| && CapitalKey(infos[i]).Unhashable?
    ensures r.Some? ==> Distinct(r.value)
    ensures r.Some? ==> forall k :: k in r.value <==>
      (exists i :: 0 <= i < |infos| && CapitalKey(infos[i]) == Capital(k)) && k !in claimKeys
  {
    var needed := NeededCapitalIds(infos);
    if needed.None? {
      return None;
    }
    var listed := ListSet(needed.value);
    var remaining := NotIn(listed, claimKeys);
    r := Some(remaining);
  }

  /** `[cid for cid in listed if cid not in claimKeys]`. */
  method NotIn(listed: seq<ClaimKey>, claimKeys: set<ClaimKey>) returns (remaining: seq<ClaimKey>)
    requires Distinct(listed)
    ensures Distinct(remaining)
    ensures forall k :: k in remaining <==> k in listed && k !in claimKeys
  {
    remaining := [];
    var i := 0;
    while i < |listed|
      invariant 0 <= i <= |listed|
      invariant Distinct(remaining)
      invariant forall k :: k in remaining <==> k in listed[..i] && k !in claimKeys
    {
      assert listed[..i + 1] == listed[..i] + [listed[i]];
      if listed[i] !in claimKeys {
        assert listed[i] !in listed[..i];
        remaining := remaining + [listed[i]];
      }
      i := i + 1;
    }
    assert listed[..i] == listed;
  }
}
