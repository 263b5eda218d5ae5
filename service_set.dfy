/** `pd service set`: select services by name search and/or ID and set one
    attribute on each of them. */
module ServiceSet {
  import opened Wrappers
  import opened Values
  import opened Sequences
  import opened Requests

  /** The parsed flags; `ids` is `None` when the flag was not given. */
  datatype Flags = Flags(name: Option<string>, ids: Option<seq<string>>, key: string, value: string)

  /** `services.map(...)` throws when the name search returned no array. */
  datatype Error = SearchReturnedNothing

  /** `if (flags.name)`: a name that is not the empty string. */
  predicate NameGiven(f: Flags)
    ensures NameGiven(f) <==> f.name.Some? && Truthy(Str(f.name.value))
  {
    f.name.Some? && f.name.value != ""
  }

  /** Building `service_ids_set`, first from the IDs the name search found
      (`found`, `None` when the search returned nothing usable), then merged
      with `--ids`. */
  method GatherIds(f: Flags, found: Option<seq<string>>) returns (r: Result<seq<string>, Error>)
    ensures r.Err? <==> NameGiven(f) && found.None?
    ensures r.Ok? ==>
      r.value == Dedup((if NameGiven(f) then found.value else []) + (if f.ids.Some? then f.ids.value else []))
  {
    var serviceIds: seq<string> := [];
    if NameGiven(f) {
      if found.None? {
        return Err(SearchReturnedNothing);
      }
      serviceIds := Dedup(found.value);
    }
    if f.ids.Some? {
      ghost var searched := if NameGiven(f) then found.value else [];
      DedupMergeAbsorbs(searched, f.ids.value);
      assert Dedup(searched) == serviceIds;
      serviceIds := Dedup(serviceIds + f.ids.value);
    } else {
      ghost var searched := if NameGiven(f) then found.value else [];
      assert searched + [] == searched;
    }
    r := Ok(serviceIds);
  }

  /** `body.service` after `body.service[key] = value`: a service reference to
      `id` whose `key` attribute is `value`; a `key` of `type` or `id`
      overrides that field. */
  function ServiceReference(id: string, key: string, value: string): (s: map<string, string>)
    ensures s.Keys == {"type", "id", key}
    ensures s[key] == value
    ensures key != "type" ==> s["type"] == "service_reference"
    ensures key != "id" ==> s["id"] == id
  {
    map["type" := "service_reference", "id" := id][key := value]
  }

  /** The body of one update request. */
  datatype Body = Body(service: map<string, string>)

  /** One PUT on `/services/<id>` per ID, in order, carrying the token, no
      query parameters and the service reference as body. */
  predicate ServiceRequests(reqs: seq<Request<Body>>, token: string, ids: seq<string>,
                            key: string, value: string)
  {
    |reqs| == |ids| &&
    forall i :: 0 <= i < |ids| ==>
      reqs[i] == Request(Some(token), "/services/" + ids[i], Put, map[],
                         Body(ServiceReference(ids[i], key, value)))
  }

  /** The loop that builds each body and pushes one request per service ID. */
  method BuildRequests(token: string, ids: seq<string>, key: string, value: string)
    returns (reqs: seq<Request<Body>>)
    ensures ServiceRequests(reqs, token, ids, key, value)
  {
    reqs := [];
    for i := 0 to |ids|
      invariant ServiceRequests(reqs, token, ids[..i], key, value)
    {
      var service := map["type" := "service_reference", "id" := ids[i]];
      service := service[key := value];
      var body := Body(service);
      reqs := reqs + [Request(Some(token), "/services/" + ids[i], Put, map[], body)];
    }
    assert ids[..|ids|] == ids;
  }

  /** A response from the batch: `None` for a missing one; its `service` is
      `None` when absent or `null`. */
  datatype Response = Response(service: Option<Record>)

  /** `r && r.service && r.service[key] && r.service[key] === value` */
  predicate Confirmed(r: Option<Response>, key: string, value: string)
  {
    r.Some? && r.value.service.Some? && Truthy(Property(r.value.service.value, key)) &&
    Property(r.value.service.value, key) == Str(value)
  }

  datatype Outcome = Done | SomeRequestsFailed

  /** The loop that sets `failed`, and the report that follows it. */
  method CheckResponses(rs: seq<Option<Response>>, key: string, value: string)
    returns (outcome: Outcome)
    ensures outcome == SomeRequestsFailed <==> exists i :: 0 <= i < |rs| && !Confirmed(rs[i], key, value)
  {
    var failed := false;
    for i := 0 to |rs|
      invariant failed <==> exists j :: 0 <= j < i && !Confirmed(rs[j], key, value)
    {
      if !Confirmed(rs[i], key, value) {
        failed := true;
      }
    }
    outcome := if failed then SomeRequestsFailed else Done;
  }

  /** A response confirms the update exactly when its service holds the string
      that was set and that string is not empty: setting `''` always counts
      as a failure. */
  lemma ConfirmedIff(r: Option<Response>, key: string, value: string)
    ensures Confirmed(r, key, value) <==>
      r.Some? && r.value.service.Some? && key in r.value.service.value &&
      r.value.service.value[key] == Str(value) && value != ""
  {
  }
}
