/**
 * The capped loop shape the generator uses twice (towers of one empire, and
 * the empire list): each item is skipped, kept, or raises an uncaught
 * exception; before looking at an item the loop stops once `cap > 0` items
 * have been kept.
 */
module BoundedScan {
  import opened Optional
  import opened Json

  datatype Verdict<+T> = Raise | Skip | Keep(value: T)

  /** Position of the first item that raises, or `|vs|` when none does. */
  function FirstRaise<T>(vs: seq<Verdict<T>>): (n: nat)
    ensures n <= |vs|
    ensures forall i :: 0 <= i < n ==> !vs[i].Raise?
    ensures n < |vs| ==> vs[n].Raise?
  {
    if vs == [] then 0 else if vs[0].Raise? then 0 else 1 + FirstRaise(vs[1..])
  }

  /** The values of the kept items, in order. */
  function Kept<T>(vs: seq<Verdict<T>>): seq<T> {
    if vs == [] then []
    else
      var last := vs[|vs| - 1];
      Kept(vs[..|vs| - 1]) + (if last.Keep? then [last.value] else [])
  }

  /** What the capped loop yields: `None` when an item raises before the cap
      is reached, otherwise the first `cap` kept values (all of them if `cap <= 0`). */
  function ScanResult<T>(vs: seq<Verdict<T>>, cap: int): Option<seq<T>> {
    var k := Kept(vs[..FirstRaise(vs)]);
    if cap > 0 && |k| >= cap then Some(k[..cap])
    else if FirstRaise(vs) < |vs| then None
    else Some(k)
  }

  lemma {:induction false} KeptPrefix<T>(vs: seq<Verdict<T>>, i: nat, j: nat)
    requires i <= j <= |vs|
    ensures |Kept(vs[..i])| <= |Kept(vs[..j])|
    ensures Kept(vs[..i]) == Kept(vs[..j])[..|Kept(vs[..i])|]
    decreases j - i
  {
    if i < j {
      KeptPrefix(vs, i, j - 1);
      assert vs[..j][..j - 1] == vs[..j - 1];
    }
  }

  /** The Python loop: `if cap > 0 and count >= cap: break`, then look at the item. */
  method Scan<T>(vs: seq<Verdict<T>>, cap: int) returns (r: Option<seq<T>>)
    ensures r == ScanResult(vs, cap)
  {
    var kept: seq<T> := [];
    var i := 0;
    while i < |vs|
      invariant 0 <= i <= FirstRaise(vs)
      invariant kept == Kept(vs[..i])
      invariant cap > 0 ==> |kept| <= cap
    {
      if cap > 0 && |kept| >= cap {
        break;
      }
      assert vs[..i + 1][..i] == vs[..i];
      match vs[i] {
        case Raise =>
          return None;
        case Skip =>
        case Keep(v) =>
          kept := kept + [v];
      }
      i := i + 1;
    }
    KeptPrefix(vs, i, FirstRaise(vs));
    if i < |vs| {
      assert vs[..i + 1][..i] == vs[..i];
    }
    r := Some(kept);
  }

  /** A result never holds more than `cap` values when the cap is on. */
  lemma ScanRespectsCap<T>(vs: seq<Verdict<T>>, cap: int)
    requires cap > 0 && ScanResult(vs, cap).Some?
    ensures |ScanResult(vs, cap).value| <= cap
  {
  }

  /** Positions of the kept items: strictly increasing, and each carries its value. */
  function KeptPositions<T>(vs: seq<Verdict<T>>): (ps: seq<nat>)
    ensures |ps| == |Kept(vs)|
    ensures forall k :: 0 <= k < |ps| ==> ps[k] < |vs| && vs[ps[k]] == Keep(Kept(vs)[k])
    ensures forall k, l :: 0 <= k < l < |ps| ==> ps[k] < ps[l]
    ensures forall i :: 0 <= i < |vs| && vs[i].Keep? ==> i in ps
  {
    if vs == [] then []
    else
      var n := |vs| - 1;
      var front := KeptPositions(vs[..n]);
      if vs[n].Keep? then front + [n] else front
  }

  /** The values a scan yields sit at strictly increasing item positions, each
      at the item that kept it. */
  lemma ScanKeepsItemOrder<T>(vs: seq<Verdict<T>>, cap: int)
    requires ScanResult(vs, cap).Some?
    ensures var r := ScanResult(vs, cap).value;
      var ps := KeptPositions(vs[..FirstRaise(vs)]);
      |r| <= |ps| &&
      (forall k :: 0 <= k < |r| ==> ps[k] < |vs| && vs[ps[k]] == Keep(r[k])) &&
      (forall k, l :: 0 <= k < l < |r| ==> ps[k] < ps[l])
  {
    var pre := vs[..FirstRaise(vs)];
    var ps := KeptPositions(pre);
    var r := ScanResult(vs, cap).value;
    forall k | 0 <= k < |r|
      ensures ps[k] < |vs| && vs[ps[k]] == Keep(r[k])
    {
      assert r[k] == Kept(pre)[k];
      assert vs[ps[k]] == pre[ps[k]];
    }
  }

  /** Verdicts for `for item in v:` when `classify` raises on every `str`:
      a list yields its items; a `str` yields one-character strings and a dict
      its `str` keys, so each of those raises; anything else is not iterable. */
  function Walk<T>(v: Value, classify: Value -> Verdict<T>): (vs: seq<Verdict<T>>)
    requires forall s :: classify(JStr(s)).Raise?
    ensures v.JList? ==> |vs| == |v.items| && forall i :: 0 <= i < |vs| ==> vs[i] == classify(v.items[i])
    ensures !v.JList? ==> forall i :: 0 <= i < |vs| ==> vs[i].Raise?
    ensures v.JStr? ==> |vs| == |v.s|
    ensures v.JObj? ==> |vs| == |v.fields|
    ensures (v.JNull? || v.JBool? || v.JNum?) ==> vs == [Raise]
  {
    match v
    case JList(items) => seq(|items|, i requires 0 <= i < |items| => classify(items[i]))
    case JStr(s) => seq(|s|, i => Raise)
    case JObj(fields) => seq(|fields|, i => Raise)
    case _ => [Raise]
  }
}
