/**
 * `apply_colors_from_store`: every owner gets the colour stored under its id
 * when that colour is non-empty, and the default empire colour otherwise; the
 * store is brought up to date on the way.  Reading and writing the YAML file
 * are left to the caller: the loaded store comes in, and the `updated` flag
 * says whether the caller writes the store back.
 */
module Coloring {
  import opened Optional
  import opened Json
  import opened Towers
  import opened ColorStore
  import opened Features
  import opened Order

  function Lookup(store: Store, id: int): (e: Option<Entry>)
    ensures e.Some? <==> id in store
    ensures e.Some? ==> e.value == store[id]
  {
    if id in store then Some(store[id]) else None
  }

  /** `color_val` when it is truthy: the entry exists and its colour is a non-empty string. */
  function StoredColor(persisted: Option<Entry>): Option<string> {
    if persisted.Some? && persisted.value.color.Some? && persisted.value.color.value != "" then
      persisted.value.color
    else None
  }

  /** The colour a node gets when its entry before the node is `persisted`. */
  function ColorOf(persisted: Option<Entry>): (c: string)
    ensures c != ""
  {
    match StoredColor(persisted)
    case Some(c) => c
    case None => DefaultEmpireColor
  }

  datatype PassState = PassState(store: Store, colors: map<Owner, string>, updated: bool)

  /** One iteration of the loop over the nodes. */
  function Step(st: PassState, node: Owner): PassState {
    var persisted := Lookup(st.store, node.id);
    var colorVal := if persisted.Some? then persisted.value.color else None;
    if colorVal.Some? && colorVal.value != "" then
      var colors := st.colors[node := colorVal.value];
      if persisted.value.name != JStr(node.name) then
        PassState(st.store[node.id := persisted.value.(name := JStr(node.name))], colors, true)
      else
        PassState(st.store, colors, st.updated)
    else
      var colors := st.colors[node := DefaultEmpireColor];
      if persisted.None? then
        PassState(st.store[node.id := Entry(JStr(node.name), Some(DefaultEmpireColor))], colors, true)
      else
        // the entry's colour is falsy here, so it is filled in with the name
        PassState(st.store[node.id := persisted.value.(color := Some(DefaultEmpireColor), name := JStr(node.name))], colors, true)
  }

  /** After a node its entry holds its own name and the colour it was given;
      `updated` is raised exactly when that entry differs from the one before. */
  lemma StepEffect(st: PassState, node: Owner)
    ensures var persisted := Lookup(st.store, node.id);
      var after := Entry(JStr(node.name), Some(ColorOf(persisted)));
      Step(st, node).store == st.store[node.id := after] &&
      Step(st, node).colors == st.colors[node := ColorOf(persisted)] &&
      Step(st, node).updated == (st.updated || persisted != Some(after))
  {
    var persisted := Lookup(st.store, node.id);
    if persisted.Some? && StoredColor(persisted).Some? && persisted.value.name == JStr(node.name) {
      assert st.store[node.id := persisted.value] == st.store;
    }
  }

  /** The loop over the nodes, in order. */
  function Pass(st: PassState, nodes: seq<Owner>): PassState {
    if nodes == [] then st
    else Step(Pass(st, nodes[..|nodes| - 1]), nodes[|nodes| - 1])
  }

  function Run(store: Store, nodes: seq<Owner>): PassState {
    Pass(PassState(store, map[], false), nodes)
  }

  predicate HasId(nodes: seq<Owner>, id: int) {
    exists i :: 0 <= i < |nodes| && nodes[i].id == id
  }

  /** An entry holding the colour a node was given hands out that same colour. */
  lemma ColorOfSettled(persisted: Option<Entry>, name: Value)
    ensures ColorOf(Some(Entry(name, Some(ColorOf(persisted))))) == ColorOf(persisted)
  {
  }

  /** The store keeps handing out the colour each id had at the start, and
      ends up holding it for every node's id. */
  lemma {:induction false} RunStoreColors(store: Store, nodes: seq<Owner>)
    ensures var r := Run(store, nodes);
      forall k :: ColorOf(Lookup(r.store, k)) == ColorOf(Lookup(store, k))
    ensures var r := Run(store, nodes);
      forall k :: HasId(nodes, k) ==> k in r.store && r.store[k].color == Some(ColorOf(Lookup(store, k)))
  {
    if nodes != [] {
      var n := |nodes| - 1;
      var node := nodes[n];
      RunStoreColors(store, nodes[..n]);
      var prev := Run(store, nodes[..n]);
      StepEffect(prev, node);
      var persisted := Lookup(prev.store, node.id);
      ColorOfSettled(persisted, JStr(node.name));
      forall k | HasId(nodes, k)
        ensures HasId(nodes[..n], k) || k == node.id
      {
        var i :| 0 <= i < |nodes| && nodes[i].id == k;
        if i < n { assert nodes[..n][i] == nodes[i]; }
      }
    }
  }

  /** Every node is given its stored non-empty colour or the default. */
  lemma {:induction false} RunColors(store: Store, nodes: seq<Owner>)
    ensures var r := Run(store, nodes);
      forall n :: n in r.colors <==> n in nodes
    ensures var r := Run(store, nodes);
      forall n :: n in r.colors ==> r.colors[n] == ColorOf(Lookup(store, n.id))
  {
    if nodes != [] {
      var n := |nodes| - 1;
      var node := nodes[n];
      RunColors(store, nodes[..n]);
      RunStoreColors(store, nodes[..n]);
      StepEffect(Run(store, nodes[..n]), node);
      forall x
        ensures x in nodes <==> x in nodes[..n] || x == node
      {
        InFrontOrLast(nodes, x);
      }
    }
  }

  /** Ids no node carries keep their entries; the store gains exactly the new ids. */
  lemma {:induction false} RunStoreKeys(store: Store, nodes: seq<Owner>)
    ensures var r := Run(store, nodes);
      forall k :: k in r.store <==> k in store || HasId(nodes, k)
    ensures var r := Run(store, nodes);
      forall k :: k in store && !HasId(nodes, k) ==> r.store[k] == store[k]
  {
    if nodes != [] {
      var n := |nodes| - 1;
      var node := nodes[n];
      RunStoreKeys(store, nodes[..n]);
      StepEffect(Run(store, nodes[..n]), node);
      forall k | HasId(nodes, k)
        ensures HasId(nodes[..n], k) || k == node.id
      {
        var i :| 0 <= i < |nodes| && nodes[i].id == k;
        if i < n { assert nodes[..n][i] == nodes[i]; }
      }
      forall k | HasId(nodes[..n], k)
        ensures HasId(nodes, k)
      {
        var i :| 0 <= i < n && nodes[..n][i].id == k;
        assert nodes[i] == nodes[..n][i];
      }
    }
  }

  /** The entry of an id carries the name of the last node with that id. */
  lemma {:induction false} RunNames(store: Store, nodes: seq<Owner>, i: int)
    requires 0 <= i < |nodes|
    requires forall j :: i < j < |nodes| ==> nodes[j].id != nodes[i].id
    ensures var r := Run(store, nodes);
      nodes[i].id in r.store && r.store[nodes[i].id].name == JStr(nodes[i].name)
  {
    var n := |nodes| - 1;
    StepEffect(Run(store, nodes[..n]), nodes[n]);
    if i < n {
      RunNames(store, nodes[..n], i);
    }
  }

  /** With `updated` still false the store is untouched. */
  lemma {:induction false} NotUpdatedMeansUnchanged(store: Store, nodes: seq<Owner>)
    ensures !Run(store, nodes).updated ==> Run(store, nodes).store == store
  {
    if nodes != [] {
      var n := |nodes| - 1;
      var prev := Run(store, nodes[..n]);
      NotUpdatedMeansUnchanged(store, nodes[..n]);
      StepEffect(prev, nodes[n]);
      var persisted := Lookup(prev.store, nodes[n].id);
      if !Run(store, nodes).updated {
        assert persisted.Some? && prev.store[nodes[n].id := persisted.value] == prev.store;
      }
    }
  }

  /** With distinct ids a raised `updated` leaves a trace: some node's id
      reads differently from the store the pass started with. */
  lemma {:induction false} UpdatedLeavesTrace(store: Store, nodes: seq<Owner>)
    requires DistinctIds(nodes)
    ensures Run(store, nodes).updated ==>
      exists k :: HasId(nodes, k) && Lookup(Run(store, nodes).store, k) != Lookup(store, k)
  {
    if nodes != [] {
      var n := |nodes| - 1;
      var node := nodes[n];
      var prev := Run(store, nodes[..n]);
      var r := Run(store, nodes);
      assert DistinctIds(nodes[..n]) by {
        forall i, j | 0 <= i < j < n ensures nodes[..n][i].id != nodes[..n][j].id {
          assert nodes[..n][i] == nodes[i] && nodes[..n][j] == nodes[j];
        }
      }
      UpdatedLeavesTrace(store, nodes[..n]);
      NotUpdatedMeansUnchanged(store, nodes[..n]);
      StepEffect(prev, node);
      if prev.updated {
        var k :| HasId(nodes[..n], k) && Lookup(prev.store, k) != Lookup(store, k);
        var i :| 0 <= i < n && nodes[..n][i].id == k;
        assert nodes[i].id == k && k != node.id;
        assert HasId(nodes, k) && Lookup(r.store, k) != Lookup(store, k);
      } else if r.updated {
        assert HasId(nodes, node.id) && Lookup(r.store, node.id) != Lookup(store, node.id);
      }
    }
  }

  /** With distinct ids the flag is raised exactly when the store changed, so
      the store is written back exactly when there is something new in it. */
  lemma UpdatedIffChanged(store: Store, nodes: seq<Owner>)
    requires DistinctIds(nodes)
    ensures Run(store, nodes).updated <==> Run(store, nodes).store != store
  {
    UpdatedLeavesTrace(store, nodes);
    NotUpdatedMeansUnchanged(store, nodes);
  }

  /** A store in which every node's entry already holds its name and a
      non-empty colour is left alone by a pass. */
  lemma {:induction false} SettledStoreIsFixed(st: PassState, nodes: seq<Owner>)
    requires !st.updated
    requires forall i :: 0 <= i < |nodes| ==>
      Lookup(st.store, nodes[i].id) == Some(Entry(JStr(nodes[i].name), Some(ColorOf(Lookup(st.store, nodes[i].id)))))
    ensures Pass(st, nodes).store == st.store && !Pass(st, nodes).updated
  {
    if nodes != [] {
      var n := |nodes| - 1;
      SettledStoreIsFixed(st, nodes[..n]);
      var prev := Pass(st, nodes[..n]);
      StepEffect(prev, nodes[n]);
      var persisted := Lookup(prev.store, nodes[n].id);
      assert prev.store[nodes[n].id := persisted.value] == prev.store;
    }
  }

  predicate DistinctIds(nodes: seq<Owner>) {
    forall i, j :: 0 <= i < j < |nodes| ==> nodes[i].id != nodes[j].id
  }

  /** Running the pass again over the same nodes, with the store the first pass
      produced, changes nothing and assigns the same colours. */
  lemma PassIdempotent(store: Store, nodes: seq<Owner>)
    requires DistinctIds(nodes)
    ensures var r1 := Run(store, nodes);
      var r2 := Run(r1.store, nodes);
      r2.store == r1.store && !r2.updated && r2.colors == r1.colors
  {
    var r1 := Run(store, nodes);
    var r2 := Run(r1.store, nodes);
    RunColors(store, nodes);
    RunColors(r1.store, nodes);
    RunStoreColors(store, nodes);
    forall i | 0 <= i < |nodes|
      ensures Lookup(r1.store, nodes[i].id) == Some(Entry(JStr(nodes[i].name), Some(ColorOf(Lookup(r1.store, nodes[i].id)))))
    {
      assert HasId(nodes, nodes[i].id);
      RunNames(store, nodes, i);
    }
    SettledStoreIsFixed(PassState(r1.store, map[], false), nodes);
    assert r2.colors == r1.colors;
  }

  /** `apply_colors_from_store` over the loaded store: the colours colors,
      the store as it would be written back, and whether it is written. */
  method ApplyColorsFromStore(loaded: Store, nodes: seq<Owner>) returns (colors: map<Owner, string>, store: Store, updated: bool)
    ensures forall n :: n in colors <==> n in nodes
    ensures forall n :: n in colors ==> colors[n] == ColorOf(Lookup(loaded, n.id))
    ensures forall n :: n in nodes ==> n.id in store && store[n.id].color == Some(colors[n])
    ensures forall k :: k in store <==> k in loaded || HasId(nodes, k)
    ensures forall k :: k in loaded && !HasId(nodes, k) ==> store[k] == loaded[k]
    ensures !updated ==> store == loaded
    ensures DistinctIds(nodes) ==> (updated <==> store != loaded)
    ensures forall i :: 0 <= i < |nodes| && (forall j :: i < j < |nodes| ==> nodes[j].id != nodes[i].id) ==>
      nodes[i].id in store && store[nodes[i].id].name == JStr(nodes[i].name)
    ensures colors == Run(loaded, nodes).colors && store == Run(loaded, nodes).store && updated == Run(loaded, nodes).updated
  {
    var st := PassState(loaded, map[], false);
    var i := 0;
    while i < |nodes|
      invariant 0 <= i <= |nodes|
      invariant st == Run(loaded, nodes[..i])
    {
      assert nodes[..i + 1][..i] == nodes[..i];
      st := Step(st, nodes[i]);
      i := i + 1;
    }
    assert nodes[..i] == nodes;
    RunColors(loaded, nodes);
    RunStoreColors(loaded, nodes);
    RunStoreKeys(loaded, nodes);
    NotUpdatedMeansUnchanged(loaded, nodes);
    if DistinctIds(nodes) {
      UpdatedIffChanged(loaded, nodes);
    }
    forall i | 0 <= i < |nodes| && (forall j :: i < j < |nodes| ==> nodes[j].id != nodes[i].id)
      ensures nodes[i].id in st.store && st.store[nodes[i].id].name == JStr(nodes[i].name)
    {
      RunNames(loaded, nodes, i);
    }
    forall n | n in nodes
      ensures HasId(nodes, n.id)
    {
      var j :| 0 <= j < |nodes| && nodes[j] == n;
    }
    colors, store, updated := st.colors, st.store, st.updated;
  }
}
