/**
 * The envelope handling of the API client.  The HTTP request, its retries and
 * rate limiting are not modelled: a payload is `None` when the request or the
 * JSON decoding raised (the client then returns its empty default), and
 * `Some(v)` for the decoded body `v`.
 */
module Client {
  import opened Optional
  import opened Json

  const EmptyList: Value := JList([])

  /** `data.get(key) or default` for a dict whose `key` holds a non-null value. */
  function InnerOr(data: Value, key: string, default: Value): (r: Value)
    requires data.JObj? && HasNonNull(data, key)
    ensures Truthy(data.fields[key]) ==> r == data.fields[key]
    ensures !Truthy(data.fields[key]) ==> r == default
  {
    var inner := data.fields[key];
    if Truthy(inner) then inner else default
  }

  /** `fetch_empires`: the `empires` member of a dict body, `[]` when it is absent;
      a body that is not a dict raises inside the `try` and gives `[]` too. */
  function UnwrapEmpires(payload: Option<Value>): (r: Value)
    ensures payload.None? || !payload.value.JObj? ==> r == EmptyList
    ensures payload.Some? && payload.value.JObj? && "empires" in payload.value.fields ==>
      r == payload.value.fields["empires"]
    ensures payload.Some? && payload.value.JObj? && "empires" !in payload.value.fields ==> r == EmptyList
  {
    match payload
    case None => EmptyList
    case Some(data) => if data.JObj? then Get(data, "empires").GetOr(EmptyList) else EmptyList
  }

  /** The decoded body is a dict. */
  predicate IsDict(payload: Option<Value>) {
    payload.Some? && payload.value.JObj?
  }

  /** The decoded body is a dict whose `key` holds something other than `null`. */
  predicate Wraps(payload: Option<Value>, key: string) {
    IsDict(payload) && HasNonNull(payload.value, key)
  }

  /** `fetch_empire`: unwraps `{"empire": ...}`, keeps any other dict, and gives
      `{}` for everything else. */
  function UnwrapEmpire(payload: Option<Value>): (r: Value)
    ensures !IsDict(payload) ==> r == EmptyObject
    ensures Wraps(payload, "empire") && Truthy(payload.value.fields["empire"]) ==>
      r == payload.value.fields["empire"]
    ensures Wraps(payload, "empire") && !Truthy(payload.value.fields["empire"]) ==> r == EmptyObject
    ensures IsDict(payload) && !Wraps(payload, "empire") ==> r == payload.value
  {
    match payload
    case None => EmptyObject
    case Some(data) =>
      if data.JObj? && HasNonNull(data, "empire") then InnerOr(data, "empire", EmptyObject)
      else if data.JObj? then data
      else EmptyObject
  }

  /** `fetch_claim`: unwraps `{"claim": ...}`; a bare dict is kept only when it
      carries a non-null `entityId`. */
  function UnwrapClaim(payload: Option<Value>): (r: Value)
    ensures !IsDict(payload) ==> r == EmptyObject
    ensures Wraps(payload, "claim") && Truthy(payload.value.fields["claim"]) ==>
      r == payload.value.fields["claim"]
    ensures Wraps(payload, "claim") && !Truthy(payload.value.fields["claim"]) ==> r == EmptyObject
    ensures IsDict(payload) && !Wraps(payload, "claim") && Wraps(payload, "entityId") ==> r == payload.value
    ensures IsDict(payload) && !Wraps(payload, "claim") && !Wraps(payload, "entityId") ==> r == EmptyObject
  {
    match payload
    case None => EmptyObject
    case Some(data) =>
      if data.JObj? && HasNonNull(data, "claim") then InnerOr(data, "claim", EmptyObject)
      else if data.JObj? && HasNonNull(data, "entityId") then data
      else EmptyObject
  }

  /** `fetch_claims_page`: unwraps `{"claims": ...}`, keeps a bare list, and
      gives `[]` for everything else. */
  function UnwrapClaimsPage(payload: Option<Value>): (r: Value)
    ensures Wraps(payload, "claims") && Truthy(payload.value.fields["claims"]) ==>
      r == payload.value.fields["claims"]
    ensures Wraps(payload, "claims") && !Truthy(payload.value.fields["claims"]) ==> r == EmptyList
    ensures payload.Some? && payload.value.JList? ==> r == payload.value
    ensures !Wraps(payload, "claims") && !(payload.Some? && payload.value.JList?) ==> r == EmptyList
  {
    match payload
    case None => EmptyList
    case Some(data) =>
      if data.JObj? && HasNonNull(data, "claims") then InnerOr(data, "claims", EmptyList)
      else if data.JList? then data
      else EmptyList
  }

  /** A wrapped object is handed out as is, and handing it back in wrapped
      again gives the same object. */
  lemma UnwrapEmpireOfWrapped(inner: Value)
    requires inner.JObj? && inner != EmptyObject
    ensures UnwrapEmpire(Some(JObj(map["empire" := inner]))) == inner
    ensures !HasNonNull(inner, "empire") ==> UnwrapEmpire(Some(inner)) == inner
  {
  }

  /** A claim comes out the same whether it arrives bare or wrapped; a dict
      with neither a claim nor an id is refused. */
  lemma UnwrapClaimBareOrWrapped(claim: Value)
    requires claim.JObj? && HasNonNull(claim, "entityId") && !HasNonNull(claim, "claim")
    ensures UnwrapClaim(Some(claim)) == claim
    ensures UnwrapClaim(Some(JObj(map["claim" := claim]))) == claim
    ensures UnwrapClaim(Some(JObj(claim.fields - {"entityId"}))) == EmptyObject
  {
    assert Truthy(claim);
  }

  /** The claims page is the list handed back, or the `claims` member of a dict. */
  lemma UnwrapClaimsPageOfList(items: seq<Value>)
    ensures UnwrapClaimsPage(Some(JList(items))) == JList(items)
    ensures items != [] ==> UnwrapClaimsPage(Some(JObj(map["claims" := JList(items)]))) == JList(items)
    ensures UnwrapClaimsPage(Some(JObj(map["claims" := JList([])]))) == EmptyList
  {
  }
}
