/** `pd user set`: select users by email pattern, exact email, ID or IDs
    read from standard input, and set one attribute on each of them. */
module UserSet {
  import opened Wrappers
  import opened Values
  import opened Sequences
  import opened Strings
  import opened Requests

  /** The parsed flags; a `multiple` flag that was not given is `None`
      (a given one is an array, which is truthy even when empty). */
  datatype Flags = Flags(emails: Option<seq<string>>, exactEmails: Option<seq<string>>,
                         ids: Option<seq<string>>, pipe: bool, key: string, value: string)

  /** What the remote lookups and standard input returned: the IDs found for
      the `--emails` patterns, the ID or nothing found for each
      `--exact_emails` entry (same order), and the text on standard input. */
  datatype Lookups = Lookups(emailMatches: seq<string>, exactMatches: seq<Option<string>>,
                             stdin: string)

  /** The three ways the command stops with exit code 1 before any update. */
  datatype Error = NoSelector | NoUserIds | InvalidIds(invalid: seq<string>)

  predicate HasSelector(f: Flags)
  {
    f.emails.Some? || f.exactEmails.Some? || f.ids.Some? || f.pipe
  }

  /** `if (user_id)`: a lookup result counts only when it is a non-empty string. */
  predicate TruthyId(m: Option<string>)
    ensures TruthyId(m) <==> m.Some? && Truthy(Str(m.value))
  {
    m.Some? && m.value != ""
  }

  /** The truthy exact-email lookup results, in lookup order. */
  function TruthyIds(ms: seq<Option<string>>): (r: seq<string>)
    ensures forall x :: x in r <==> exists i :: 0 <= i < |ms| && ms[i] == Some(x) && x != ""
    decreases |ms|
  {
    if ms == [] then []
    else
      var init := ms[..|ms| - 1];
      assert forall i :: 0 <= i < |init| ==> init[i] == ms[i];
      var last := ms[|ms| - 1];
      TruthyIds(init) + if TruthyId(last) then [last.value] else []
  }

  /** The list after the `--exact_emails` loop: each truthy ID is merged in
      through a `Set`, so the list is left exactly as it was when no lookup
      returned an ID. */
  function AfterExactEmails(current: seq<string>, ms: seq<Option<string>>): (r: seq<string>)
    ensures forall x :: x in r <==> x in current || x in TruthyIds(ms)
  {
    if TruthyIds(ms) == [] then current else Dedup(current + TruthyIds(ms))
  }

  /** The user IDs the command ends up with. The email lookup result is taken
      as it is, the exact-email and `--ids` steps merge through a `Set`, and
      `--pipe` replaces whatever was gathered before. `split` stands for the
      helper `splitDedupAndFlatten`, whose code is not part of this model. */
  function GatheredIds(f: Flags, l: Lookups, split: seq<string> -> seq<string>): seq<string>
  {
    if f.pipe then split([l.stdin])
    else
      var fromEmails := if f.emails.Some? then l.emailMatches else [];
      var fromExact := if f.exactEmails.Some? then AfterExactEmails(fromEmails, l.exactMatches)
                       else fromEmails;
      if f.ids.Some? then Dedup(fromExact + split(f.ids.value)) else fromExact
  }

  /** The `--exact_emails` loop: `if (user_id) user_ids = [...new Set([...user_ids, user_id])]`. */
  method MergeExactMatches(current: seq<string>, ms: seq<Option<string>>) returns (ids: seq<string>)
    ensures ids == AfterExactEmails(current, ms)
  {
    ids := current;
    for i := 0 to |ms|
      invariant ids == AfterExactEmails(current, ms[..i])
    {
      assert ms[..i + 1][..i] == ms[..i];
      var found := TruthyIds(ms[..i]);
      assert TruthyIds(ms[..i + 1]) == found + if TruthyId(ms[i]) then [ms[i].value] else [];
      if TruthyId(ms[i]) {
        if found != [] {
          DedupMergeAbsorbs(current + found, [ms[i].value]);
          assert current + found + [ms[i].value] == current + (found + [ms[i].value]);
        }
        ids := Dedup(ids + [ms[i].value]);
        assert TruthyIds(ms[..i + 1]) == found + [ms[i].value];
        assert ids == Dedup(current + (found + [ms[i].value]));
      } else {
        assert TruthyIds(ms[..i + 1]) == found;
      }
      assert ids == AfterExactEmails(current, ms[..i + 1]);
    }
    assert ms[..|ms|] == ms;
  }

  /** `flags.value.trim().length > 0 ? flags.value : null` */
  function NormaliseValue(value: string): (r: Option<string>)
    ensures r.None? <==> AllWhitespace(value)
    ensures r.Some? ==> r.value == value
  {
    TrimEmptyIff(value);
    if |Trim(value)| > 0 then Some(value) else None
  }

  /** One PUT on `/users/<id>` per ID, in order, with no query parameters and
      the body `putBody('user', id, key, value)`; `putBody` stands for the
      helper `putBodyForSetAttribute`, whose code is not part of this model. */
  predicate UserRequests<B(==)>(reqs: seq<Request<B>>, ids: seq<string>, key: string,
                                value: Option<string>, putBody: (string, string, string, Option<string>) -> B)
  {
    |reqs| == |ids| &&
    forall i :: 0 <= i < |ids| ==>
      reqs[i] == Request(None, "/users/" + ids[i], Put, map[], putBody("user", ids[i], key, value))
  }

  /** The loop that pushes one request per user ID. */
  method BuildRequests<B(==)>(ids: seq<string>, key: string, value: Option<string>,
                              putBody: (string, string, string, Option<string>) -> B)
    returns (reqs: seq<Request<B>>)
    ensures UserRequests(reqs, ids, key, value, putBody)
  {
    reqs := [];
    for i := 0 to |ids|
      invariant UserRequests(reqs, ids[..i], key, value, putBody)
    {
      reqs := reqs + [Request(None, "/users/" + ids[i], Put, map[], putBody("user", ids[i], key, value))];
    }
    assert ids[..|ids|] == ids;
  }

  /** Everything `run()` does before the batch is sent. `invalidIds` stands
      for the helper `invalidPagerDutyIDs`, whose code is not part of this
      model. */
  method Run<B(==)>(f: Flags, l: Lookups, split: seq<string> -> seq<string>,
                    invalidIds: seq<string> -> seq<string>,
                    putBody: (string, string, string, Option<string>) -> B)
    returns (r: Result<seq<Request<B>>, Error>)
    requires f.exactEmails.Some? ==> |l.exactMatches| == |f.exactEmails.value|
    ensures r == Err(NoSelector) <==> !HasSelector(f)
    ensures r == Err(NoUserIds) <==> HasSelector(f) && GatheredIds(f, l, split) == []
    ensures r.Err? && r.error.InvalidIds? <==>
      HasSelector(f) && GatheredIds(f, l, split) != [] && invalidIds(GatheredIds(f, l, split)) != []
    ensures r.Err? && r.error.InvalidIds? ==> r.error.invalid == invalidIds(GatheredIds(f, l, split))
    ensures r.Ok? ==>
      UserRequests(r.value, GatheredIds(f, l, split), f.key, NormaliseValue(f.value), putBody)
  {
    if !HasSelector(f) {
      return Err(NoSelector);
    }
    var userIds: seq<string> := [];
    if f.emails.Some? {
      userIds := l.emailMatches;
    }
    if f.exactEmails.Some? {
      userIds := MergeExactMatches(userIds, l.exactMatches);
    }
    if f.ids.Some? {
      userIds := Dedup(userIds + split(f.ids.value));
    }
    if f.pipe {
      userIds := split([l.stdin]);
    }
    if |userIds| == 0 {
      return Err(NoUserIds);
    }
    var invalid := invalidIds(userIds);
    if |invalid| > 0 {
      return Err(InvalidIds(invalid));
    }
    var value := NormaliseValue(f.value);
    var reqs := BuildRequests(userIds, f.key, value, putBody);
    r := Ok(reqs);
  }

  /** `u.user[key] !== value`: the returned user does not hold the value that
      was set (a missing attribute reads as `undefined`, which is not `null`). */
  predicate NotUpdated(user: Record, key: string, value: Option<string>)
  {
    Property(user, key) != FromNullable(value)
  }

  /** The loop over the returned users: the positions, in order, of the users
      reported as "Failed to set value on user". */
  method UnconfirmedUsers(users: seq<Record>, key: string, value: Option<string>)
    returns (notSet: seq<nat>)
    ensures forall k :: 0 <= k < |notSet| ==> notSet[k] < |users|
    ensures forall k, m :: 0 <= k < m < |notSet| ==> notSet[k] < notSet[m]
    ensures forall i :: 0 <= i < |users| ==> (i in notSet <==> NotUpdated(users[i], key, value))
  {
    notSet := [];
    for i := 0 to |users|
      invariant forall k :: 0 <= k < |notSet| ==> notSet[k] < i
      invariant forall k, m :: 0 <= k < m < |notSet| ==> notSet[k] < notSet[m]
      invariant forall j :: 0 <= j < i ==> (j in notSet <==> NotUpdated(users[j], key, value))
    {
      if NotUpdated(users[i], key, value) {
        notSet := notSet + [i];
      }
    }
  }

  /** A user is reported exactly when the attribute is not the string that
      was set, or, for a blank value, when it is not `null`. */
  lemma NotUpdatedCases(user: Record, key: string, value: string)
    ensures AllWhitespace(value) ==>
      (NotUpdated(user, key, NormaliseValue(value)) <==> !(key in user && user[key] == Null))
    ensures !AllWhitespace(value) ==>
      (NotUpdated(user, key, NormaliseValue(value)) <==> !(key in user && user[key] == Str(value)))
  {
  }

  /** `--pipe` discards the IDs gathered from every other selector. */
  lemma PipeReplaces(f: Flags, l: Lookups, split: seq<string> -> seq<string>)
    requires f.pipe
    ensures GatheredIds(f, l, split) == split([l.stdin])
  {
  }

  /** The exact-email loop adds only truthy IDs and leaves a duplicate-free
      list's entries where they were. */
  lemma ExactMatchesAppend(current: seq<string>, ms: seq<Option<string>>)
    requires NoDuplicates(current)
    ensures AfterExactEmails(current, ms) == current + Dedup(Without(TruthyIds(ms), current))
    ensures NoDuplicates(AfterExactEmails(current, ms))
    ensures forall x :: x in AfterExactEmails(current, ms) <==>
      x in current || exists i :: 0 <= i < |ms| && ms[i] == Some(x) && x != ""
  {
    MergeKeepsPositions(current, TruthyIds(ms));
    if TruthyIds(ms) == [] {
      assert Without([], current) == [];
    }
  }

  /** `--ids` merges into the list gathered so far: that list (once passed
      through a `Set`) stays in front, the new IDs follow in order, and no ID
      occurs twice. */
  lemma IdsMerge(f: Flags, l: Lookups, split: seq<string> -> seq<string>)
    requires !f.pipe && f.ids.Some?
    ensures var before := GatheredIds(f.(ids := None), l, split);
      GatheredIds(f, l, split) == Dedup(before) + Dedup(Without(split(f.ids.value), before))
    ensures NoDuplicates(GatheredIds(f, l, split))
  {
    var before := GatheredIds(f.(ids := None), l, split);
    DedupAppend(before, split(f.ids.value));
  }
}
