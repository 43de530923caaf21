/**
 * Device registrations for passes: the registration table and the one endpoint
 * that adds (POST) or removes (DELETE) a device's registration for a pass, and
 * the query that lists, per device, the passes changed since a watermark.
 */
module Registrations {

  import opened Options
  import opened Passes
  import Decimal

  /** One device's subscription to push updates for one pass; the push token column is optional. */
  datatype Registration = Registration(passId: nat, device: string, pushToken: Option<string>)

  /**
   * The "pushToken" member of the request's JSON body: missing (no such key, or no
   * JSON body at all), JSON null, or a string.
   */
  datatype PushArg = Missing | Null | Sent(token: string)

  /** The value a new row's push token column receives; JSON null is stored as no token. */
  function StoredToken(arg: PushArg): (t: Option<string>)
    requires !arg.Missing?
    ensures t.Some? <==> arg.Sent?
    ensures t.Some? ==> t.value == arg.token
  {
    if arg.Sent? then Some(arg.token) else None
  }

  /** The two HTTP methods the registration endpoint accepts. */
  datatype Verb = Post | Delete

  predicate Matches(r: Registration, passId: nat, device: string) {
    r.passId == passId && r.device == device
  }

  /** The rows a search for a (pass, device) pair finds, in table order. */
  function Matching(rows: seq<Registration>, passId: nat, device: string): (found: seq<Registration>)
    ensures forall r :: r in found <==> r in rows && Matches(r, passId, device)
    ensures found == [] <==> forall r :: r in rows ==> !Matches(r, passId, device)
  {
    if rows == [] then []
    else
      var rest := Matching(rows[1..], passId, device);
      assert forall r :: r in rows <==> r == rows[0] || r in rows[1..];
      if Matches(rows[0], passId, device) then [rows[0]] + rest else rest
  }

  /** The table once every row for a (pass, device) pair is deleted; other rows keep their multiplicity. */
  function Without(rows: seq<Registration>, passId: nat, device: string): (kept: seq<Registration>)
    ensures forall r :: multiset(kept)[r] == if Matches(r, passId, device) then 0 else multiset(rows)[r]
  {
    if rows == [] then []
    else
      var rest := Without(rows[1..], passId, device);
      assert rows == [rows[0]] + rows[1..];
      if Matches(rows[0], passId, device) then rest else [rows[0]] + rest
  }

  /** At most one row per (pass, device) pair: the uniqueness the endpoint maintains by looking before it inserts. */
  ghost predicate Unique(rows: seq<Registration>) {
    forall i, j :: 0 <= i < j < |rows| ==> !Matches(rows[j], rows[i].passId, rows[i].device)
  }

  // ---------------------------------------------------------------------------
  // The registration endpoint

  /** The reply of one call to the endpoint and the table it leaves behind. */
  datatype Step = Step(reply: Reply, rows: seq<Registration>)

  /** The search-then-act part, once the caller is authorized and the push token is read where needed. */
  function Apply(rows: seq<Registration>, passId: nat, device: string, verb: Verb, pushToken: PushArg): Step
    requires verb == Post ==> !pushToken.Missing?
  {
    if Matching(rows, passId, device) != [] then
      if verb == Delete then Step(Status(OK), Without(rows, passId, device)) else Step(Status(OK), rows)
    else if verb == Delete then
      Step(Status(NOT_FOUND), rows)
    else
      Step(Status(CREATED), rows + [Registration(passId, device, StoredToken(pushToken))])
  }

  /** What every outcome of the endpoint, as written or corrected, keeps to. */
  ghost predicate WellBehaved(
    step: Step, rows: seq<Registration>, pass: Pass, device: string, verb: Verb, cred: Credential)
  {
    // the table changes only for an authorized caller that gets 200 or 201
    && (step.rows != rows ==> CheckAuthorization(pass.authenticationToken, cred) == Granted &&
                              step.reply in {Status(OK), Status(CREATED)})
    // a raise happens before any write
    && (step.reply.Raised? ==> step.rows == rows)
    // the status codes the endpoint can answer with
    && (step.reply.Status? ==> step.reply.code in {OK, CREATED, UNAUTHORIZED, NOT_FOUND})
    // 201 means a POST that appended one row for the pair
    && (step.reply == Status(CREATED) ==>
          verb == Post && |step.rows| == |rows| + 1 && step.rows[..|rows|] == rows &&
          Matches(step.rows[|rows|], pass.id, device))
    // 404 means a DELETE for a pair without a row
    && (step.reply == Status(NOT_FOUND) ==> verb == Delete && forall r :: r in rows ==> !Matches(r, pass.id, device))
  }

  /**
   * The endpoint as written: after the authorization check it reads "pushToken"
   * from the JSON body whatever the verb, so a DELETE without that body raises
   * before the table is searched. The handler calls the guard without an explicit
   * token, so the credential it passes is always `FromHeader`; the functions here
   * accept any credential, and every lemma about them holds for that case.
   */
  function RegisterAsWritten(
    rows: seq<Registration>, pass: Pass, device: string, verb: Verb, cred: Credential, pushToken: PushArg): (step: Step)
    ensures WellBehaved(step, rows, pass, device, verb, cred)
    ensures pushToken.Missing? && CheckAuthorization(pass.authenticationToken, cred) == Granted ==>
      step.reply == Raised(PushTokenMissing)
  {
    match CheckAuthorization(pass.authenticationToken, cred)
    case Refused(reply) => Step(reply, rows)
    case Granted =>
      if pushToken.Missing? then Step(Raised(PushTokenMissing), rows)
      else Apply(rows, pass.id, device, verb, pushToken)
  }

  /**
   * The endpoint with the push token read only where it is used, for a POST; a
   * DELETE needs no body. Everything else is as written.
   */
  function Register(
    rows: seq<Registration>, pass: Pass, device: string, verb: Verb, cred: Credential, pushToken: PushArg): (step: Step)
    ensures WellBehaved(step, rows, pass, device, verb, cred)
    ensures step.reply == Raised(PushTokenMissing) <==>
      verb == Post && pushToken.Missing? && CheckAuthorization(pass.authenticationToken, cred) == Granted
  {
    match CheckAuthorization(pass.authenticationToken, cred)
    case Refused(reply) => Step(reply, rows)
    case Granted =>
      if verb == Post && pushToken.Missing? then Step(Raised(PushTokenMissing), rows)
      else Apply(rows, pass.id, device, verb, pushToken)
  }

  /** An unregistration request without a JSON body, as devices send it, raises and deletes nothing as written. */
  lemma UnregisterWithoutBody(rows: seq<Registration>, pass: Pass, device: string, cred: Credential)
    requires CheckAuthorization(pass.authenticationToken, cred) == Granted
    requires exists r :: r in rows && Matches(r, pass.id, device)
    ensures RegisterAsWritten(rows, pass, device, Delete, cred, Missing) == Step(Raised(PushTokenMissing), rows)
    ensures Register(rows, pass, device, Delete, cred, Missing) == Step(Status(OK), Without(rows, pass.id, device))
  {
    var r :| r in rows && Matches(r, pass.id, device);
    assert r in Matching(rows, pass.id, device);
  }

  /** Whenever the body has a "pushToken" member (even null), or for any POST, the correction behaves exactly as written. */
  lemma RegisterAgreesWithWritten(
    rows: seq<Registration>, pass: Pass, device: string, verb: Verb, cred: Credential, pushToken: PushArg)
    requires verb == Post || !pushToken.Missing?
    ensures Register(rows, pass, device, verb, cred, pushToken) == RegisterAsWritten(rows, pass, device, verb, cred, pushToken)
  {
  }

  /**
   * The authorization check comes first: a refused caller gets the guard's reply
   * and the table is unchanged, as written and corrected.
   */
  lemma RefusedLeavesTable(
    rows: seq<Registration>, pass: Pass, device: string, verb: Verb, cred: Credential, pushToken: PushArg)
    requires CheckAuthorization(pass.authenticationToken, cred) != Granted
    ensures Register(rows, pass, device, verb, cred, pushToken) ==
      Step(CheckAuthorization(pass.authenticationToken, cred).reply, rows)
    ensures Register(rows, pass, device, verb, cred, pushToken).reply != Status(OK)
    ensures RegisterAsWritten(rows, pass, device, verb, cred, pushToken) ==
      Step(CheckAuthorization(pass.authenticationToken, cred).reply, rows)
  {
  }

  /**
   * A first POST for a (pass, device) pair adds exactly one row and answers 201;
   * the row carries the given push token, or none when the body sent null.
   */
  lemma FirstPostCreates(rows: seq<Registration>, pass: Pass, device: string, cred: Credential, pushToken: PushArg)
    requires CheckAuthorization(pass.authenticationToken, cred) == Granted && !pushToken.Missing?
    requires forall r :: r in rows ==> !Matches(r, pass.id, device)
    ensures Register(rows, pass, device, Post, cred, pushToken) ==
      Step(Status(CREATED), rows + [Registration(pass.id, device, StoredToken(pushToken))])
  {
  }

  /**
   * Registration is idempotent: once a POST has succeeded, any further authorized
   * POST for the same pair answers 200 and leaves the table, push token included,
   * exactly as it was.
   */
  lemma PostIsIdempotent(
    rows: seq<Registration>, pass: Pass, device: string, cred: Credential, pushToken: PushArg,
    cred2: Credential, pushToken2: PushArg)
    requires Register(rows, pass, device, Post, cred, pushToken).reply in {Status(OK), Status(CREATED)}
    requires CheckAuthorization(pass.authenticationToken, cred2) == Granted && !pushToken2.Missing?
    ensures var after := Register(rows, pass, device, Post, cred, pushToken).rows;
      Register(after, pass, device, Post, cred2, pushToken2) == Step(Status(OK), after)
  {
    var after := Register(rows, pass, device, Post, cred, pushToken).rows;
    if Matching(rows, pass.id, device) != [] {
      assert after == rows;
      assert Matching(rows, pass.id, device)[0] in Matching(rows, pass.id, device);
    } else {
      var added := Registration(pass.id, device, StoredToken(pushToken));
      assert after == rows + [added] && added in after;
    }
    assert Matching(after, pass.id, device) != [] by {
      var r :| r in after && Matches(r, pass.id, device);
      assert r in Matching(after, pass.id, device);
    }
  }

  /** An authorized DELETE for a registered pair answers 200 and removes every row of that pair and no other row. */
  lemma DeleteRemovesPair(rows: seq<Registration>, pass: Pass, device: string, cred: Credential, pushToken: PushArg)
    requires CheckAuthorization(pass.authenticationToken, cred) == Granted
    requires exists r :: r in rows && Matches(r, pass.id, device)
    ensures var step := Register(rows, pass, device, Delete, cred, pushToken);
      && step.reply == Status(OK)
      && (forall r :: r in step.rows ==> !Matches(r, pass.id, device))
      && (forall r :: !Matches(r, pass.id, device) ==> multiset(step.rows)[r] == multiset(rows)[r])
  {
    var r :| r in rows && Matches(r, pass.id, device);
    assert r in Matching(rows, pass.id, device);
  }

  /** An authorized DELETE for a pair with no row answers 404 and changes nothing; so a repeated DELETE answers 404. */
  lemma DeleteMissingNotFound(rows: seq<Registration>, pass: Pass, device: string, cred: Credential, pushToken: PushArg)
    requires CheckAuthorization(pass.authenticationToken, cred) == Granted
    requires forall r :: r in rows ==> !Matches(r, pass.id, device)
    ensures Register(rows, pass, device, Delete, cred, pushToken) == Step(Status(NOT_FOUND), rows)
  {
  }

  /** After a DELETE that succeeded, the same DELETE again answers 404. */
  lemma SecondDeleteNotFound(
    rows: seq<Registration>, pass: Pass, device: string, cred: Credential, pushToken: PushArg)
    requires Register(rows, pass, device, Delete, cred, pushToken).reply == Status(OK)
    ensures var after := Register(rows, pass, device, Delete, cred, pushToken).rows;
      Register(after, pass, device, Delete, cred, pushToken) == Step(Status(NOT_FOUND), after)
  {
    var after := Register(rows, pass, device, Delete, cred, pushToken).rows;
    assert after == Without(rows, pass.id, device);
    forall r | r in after
      ensures !Matches(r, pass.id, device)
    {
      assert multiset(after)[r] > 0;
    }
    DeleteMissingNotFound(after, pass, device, cred, pushToken);
  }

  lemma {:induction false} WithoutKeepsUnique(rows: seq<Registration>, passId: nat, device: string)
    requires Unique(rows)
    ensures Unique(Without(rows, passId, device))
  {
    if rows != [] {
      var rest := Without(rows[1..], passId, device);
      WithoutKeepsUnique(rows[1..], passId, device);
      if !Matches(rows[0], passId, device) {
        var kept := [rows[0]] + rest;
        forall i, j | 0 <= i < j < |kept|
          ensures !Matches(kept[j], kept[i].passId, kept[i].device)
        {
          if i == 0 {
            assert kept[j] in rest;
            assert multiset(rest)[kept[j]] > 0;
            assert kept[j] in rows[1..];
            var k :| 0 <= k < |rows[1..]| && rows[1..][k] == kept[j];
            assert rows[k + 1] == kept[j];
          } else {
            assert kept[i] == rest[i - 1] && kept[j] == rest[j - 1];
          }
        }
      }
    }
  }

  /**
   * The endpoint never creates a second row for a pair: uniqueness of the table
   * is preserved, as written and corrected.
   */
  lemma RegisterKeepsUnique(
    rows: seq<Registration>, pass: Pass, device: string, verb: Verb, cred: Credential, pushToken: PushArg)
    requires Unique(rows)
    ensures Unique(Register(rows, pass, device, verb, cred, pushToken).rows)
    ensures Unique(RegisterAsWritten(rows, pass, device, verb, cred, pushToken).rows)
  {
    if verb == Post || !pushToken.Missing? {
      RegisterAgreesWithWritten(rows, pass, device, verb, cred, pushToken);
    }
    var step := Register(rows, pass, device, verb, cred, pushToken);
    if step.rows == Without(rows, pass.id, device) {
      WithoutKeepsUnique(rows, pass.id, device);
    } else if step.reply == Status(CREATED) {
      var added := Registration(pass.id, device, StoredToken(pushToken));
      var after := rows + [added];
      assert step.rows == after;
      forall i, j | 0 <= i < j < |after|
        ensures !Matches(after[j], after[i].passId, after[i].device)
      {
        if j == |rows| {
          assert after[i] == rows[i] && rows[i] in rows;
        } else {
          assert after[i] == rows[i] && after[j] == rows[j];
        }
      }
    }
  }

  // ---------------------------------------------------------------------------
  // The change query

  /** The optional `passesUpdatedSince` query argument: absent, parsed, or present but not a date. */
  datatype SinceArg = Absent | Parsed(time: Timestamp) | Unparseable

  /** The watermark the query applies; an argument that does not parse counts as absent. */
  function Since(arg: SinceArg): (since: Option<Timestamp>)
    ensures forall p :: UpdatedSince(p, since) <==> (arg.Parsed? ==> LastUpdate(p.origin) >= arg.time)
  {
    if arg.Parsed? then Some(arg.time) else None
  }

  /** Whether a pass counts as changed at or after the watermark (no watermark: always). */
  predicate UpdatedSince(p: Pass, since: Option<Timestamp>) {
    since.None? || LastUpdate(p.origin) >= since.value
  }

  /** The registrations for a device whose pass is active, in table order. */
  function Search(rows: seq<Registration>, passes: map<nat, Pass>, device: string): (found: seq<Registration>)
    ensures forall r :: r in found <==> r in rows && r.device == device && r.passId in passes && passes[r.passId].active
  {
    if rows == [] then []
    else
      var rest := Search(rows[1..], passes, device);
      assert forall r :: r in rows <==> r == rows[0] || r in rows[1..];
      var r := rows[0];
      if r.device == device && r.passId in passes && passes[r.passId].active then [r] + rest else rest
  }

  /** Pass `id` is reported to `device`: it is active, registered for the device, and changed since the watermark. */
  ghost predicate Selected(passes: map<nat, Pass>, rows: seq<Registration>, device: string, since: Option<Timestamp>, id: nat) {
    && id in passes
    && passes[id].active
    && (exists r :: r in rows && r.device == device && r.passId == id)
    && UpdatedSince(passes[id], since)
  }

  /** The reply of the change query: nothing to report, or serial numbers grouped by last-update time. */
  datatype Listing = NoContent | Changed(groups: map<Timestamp, seq<string>>) {
    function Code(): nat {
      if NoContent? then NO_CONTENT else OK
    }
  }

  /** The ids of the passes reported to `device`. */
  ghost function SelectedIds(passes: map<nat, Pass>, rows: seq<Registration>, device: string, since: Option<Timestamp>): (ids: set<nat>)
    ensures ids <= passes.Keys
  {
    set id | id in passes.Keys && Selected(passes, rows, device, since, id)
  }

  /** `serial` is the serial number of a pass in `ids` whose last-update time is `k`. */
  ghost predicate SerialOf(serial: string, k: Timestamp, ids: set<nat>, passes: map<nat, Pass>)
    requires ids <= passes.Keys
  {
    && Decimal.IsCanonical(serial)
    && Decimal.ToNat(serial) in ids
    && LastUpdate(passes[Decimal.ToNat(serial)].origin) == k
  }

  /**
   * `groups` lists exactly the passes in `ids`: each one's serial number under its
   * own last-update time, every listed string is the serial number of one of them
   * under its own time, no time has an empty list and no list repeats a serial number.
   */
  ghost predicate GroupsExactly(groups: map<Timestamp, seq<string>>, ids: set<nat>, passes: map<nat, Pass>)
    requires ids <= passes.Keys
  {
    && (forall id :: id in ids ==>
          LastUpdate(passes[id].origin) in groups && Decimal.FromNat(id) in groups[LastUpdate(passes[id].origin)])
    && (forall k, i :: k in groups && 0 <= i < |groups[k]| ==> SerialOf(groups[k][i], k, ids, passes))
    && (forall k :: k in groups ==> groups[k] != [])
    && (forall k, i, j :: k in groups && 0 <= i < j < |groups[k]| ==> groups[k][i] != groups[k][j])
  }

  lemma {:induction false} OccursOnce(s: seq<string>, x: string)
    requires x in s
    requires forall i, j :: 0 <= i < j < |s| ==> s[i] != s[j]
    ensures multiset(s)[x] == 1
  {
    assert s == [s[0]] + s[1..];
    if s[0] == x {
      forall k | 0 <= k < |s[1..]|
        ensures s[1..][k] != x
      {
        assert s[1..][k] == s[k + 1];
      }
      assert x !in s[1..];
    } else {
      OccursOnce(s[1..], x);
    }
  }

  /** In such a grouping every pass's serial number appears exactly once: once under its own time and under no other. */
  lemma GroupedExactlyOnce(groups: map<Timestamp, seq<string>>, ids: set<nat>, passes: map<nat, Pass>, id: nat)
    requires ids <= passes.Keys
    requires GroupsExactly(groups, ids, passes)
    requires id in ids
    ensures var own := LastUpdate(passes[id].origin);
      own in groups && multiset(groups[own])[Decimal.FromNat(id)] == 1
    ensures forall k :: k in groups && Decimal.FromNat(id) in groups[k] ==> k == LastUpdate(passes[id].origin)
  {
    var own := LastUpdate(passes[id].origin);
    OccursOnce(groups[own], Decimal.FromNat(id));
    forall k | k in groups && Decimal.FromNat(id) in groups[k]
      ensures k == own
    {
      var i :| 0 <= i < |groups[k]| && groups[k][i] == Decimal.FromNat(id);
      assert SerialOf(groups[k][i], k, ids, passes);
      Decimal.ToNatFromNat(id);
    }
  }

  /** The first loop of the query: the set of passes of the found registrations that changed since the watermark. */
  method CollectChanged(found: seq<Registration>, passes: map<nat, Pass>, since: Option<Timestamp>) returns (changed: set<nat>)
    requires forall r :: r in found ==> r.passId in passes
    ensures forall id :: id in changed <==> exists r :: r in found && r.passId == id && UpdatedSince(passes[id], since)
  {
    changed := {};
    for i := 0 to |found|
      invariant forall id :: id in changed ==> exists r :: r in found && r.passId == id && UpdatedSince(passes[id], since)
      invariant forall j :: 0 <= j < i && UpdatedSince(passes[found[j].passId], since) ==> found[j].passId in changed
    {
      assert found[i] in found;
      var pass := passes[found[i].passId];
      if since.Some? && LastUpdate(pass.origin) < since.value {
        continue;
      }
      changed := changed + {found[i].passId};
    }
    forall id | exists r :: r in found && r.passId == id && UpdatedSince(passes[id], since)
      ensures id in changed
    {
      var r :| r in found && r.passId == id && UpdatedSince(passes[id], since);
      var j :| 0 <= j < |found| && found[j] == r;
    }
  }

  /** `rv[key].append(serial)` on a dictionary whose missing keys start as empty lists. */
  function Append(groups: map<Timestamp, seq<string>>, key: Timestamp, serial: string): (after: map<Timestamp, seq<string>>)
    ensures after.Keys == groups.Keys + {key}
    ensures forall k :: k in groups && k != key ==> after[k] == groups[k]
    ensures key in groups ==> after[key] == groups[key] + [serial]
    ensures key !in groups ==> after[key] == [serial]
  {
    groups[key := (if key in groups then groups[key] else []) + [serial]]
  }

  /** Appending a further pass's serial number under its own time extends an exact grouping by that pass. */
  lemma AppendGroupsExactly(groups: map<Timestamp, seq<string>>, done: set<nat>, passes: map<nat, Pass>, id: nat)
    requires done <= passes.Keys && id in passes && id !in done
    requires GroupsExactly(groups, done, passes)
    ensures GroupsExactly(Append(groups, LastUpdate(passes[id].origin), Decimal.FromNat(id)), done + {id}, passes)
  {
    var key := LastUpdate(passes[id].origin);
    var serial := Decimal.FromNat(id);
    var group := if key in groups then groups[key] else [];
    var after := Append(groups, key, serial);
    assert after == groups[key := group + [serial]];
    Decimal.ToNatFromNat(id);
    forall k, i | k in after && 0 <= i < |after[k]|
      ensures SerialOf(after[k][i], k, done + {id}, passes)
    {
      if k != key || i < |group| {
        assert after[k][i] == groups[k][i];
        assert SerialOf(groups[k][i], k, done, passes);
      }
    }
    forall k, i, j | k in after && 0 <= i < j < |after[k]|
      ensures after[k][i] != after[k][j]
    {
      if k == key && j == |group| {
        assert SerialOf(group[i], k, done, passes);
      }
    }
  }

  /** The second loop of the query: the serial numbers of a set of passes, grouped by last-update time. */
  method GroupByLastUpdate(ids: set<nat>, passes: map<nat, Pass>) returns (groups: map<Timestamp, seq<string>>)
    requires ids <= passes.Keys
    ensures GroupsExactly(groups, ids, passes)
  {
    groups := map[];
    var todo := ids;
    while todo != {}
      invariant todo <= ids
      invariant GroupsExactly(groups, ids - todo, passes)
      decreases todo
    {
      var id :| id in todo;
      AppendGroupsExactly(groups, ids - todo, passes, id);
      groups := Append(groups, LastUpdate(passes[id].origin), Decimal.FromNat(id));
      assert ids - (todo - {id}) == (ids - todo) + {id};
      todo := todo - {id};
    }
    assert ids - todo == ids;
  }

  /** The watermark is inclusive: a pass last updated exactly at it is reported as if there were none. */
  lemma WatermarkIsInclusive(passes: map<nat, Pass>, rows: seq<Registration>, device: string, id: nat)
    requires id in passes
    ensures Selected(passes, rows, device, Some(LastUpdate(passes[id].origin)), id) <==> Selected(passes, rows, device, None, id)
  {
  }

  /** After a successful POST, an active pass is reported to the device when no watermark is given. */
  lemma RegisteredPassIsSelected(
    rows: seq<Registration>, passes: map<nat, Pass>, pass: Pass, device: string, cred: Credential, pushToken: PushArg)
    requires pass.id in passes && passes[pass.id].active
    requires Register(rows, pass, device, Post, cred, pushToken).reply in {Status(OK), Status(CREATED)}
    ensures Selected(passes, Register(rows, pass, device, Post, cred, pushToken).rows, device, None, pass.id)
  {
    var after := Register(rows, pass, device, Post, cred, pushToken).rows;
    if Matching(rows, pass.id, device) != [] {
      var r := Matching(rows, pass.id, device)[0];
      assert r in Matching(rows, pass.id, device);
      assert r in after;
    } else {
      var added := Registration(pass.id, device, StoredToken(pushToken));
      assert after == rows + [added] && added in after;
    }
  }

  /**
   * A pass created without an explicit `active` flag takes the default, active:
   * once a device registers for it with an authorized POST whose body has the
   * "pushToken" member, a query without watermark reports it to that device.
   */
  lemma DefaultActivePassIsReported(
    passes: map<nat, Pass>, rows: seq<Registration>, id: nat, origin: Origin, token: string,
    device: string, cred: Credential, pushToken: PushArg)
    requires id in passes && passes[id] == NewPass(id, origin, token, None)
    requires CheckAuthorization(token, cred) == Granted && !pushToken.Missing?
    ensures id in SelectedIds(passes, Register(rows, passes[id], device, Post, cred, pushToken).rows, device, None)
  {
    RegisteredPassIsSelected(rows, passes, passes[id], device, cred, pushToken);
  }

  /** After a successful DELETE, a pass registered only through that pair is no longer reported to the device. */
  lemma UnregisteredPassIsNotSelected(
    rows: seq<Registration>, passes: map<nat, Pass>, pass: Pass, device: string, cred: Credential,
    pushToken: PushArg, since: Option<Timestamp>)
    requires Register(rows, pass, device, Delete, cred, pushToken).reply == Status(OK)
    ensures !Selected(passes, Register(rows, pass, device, Delete, cred, pushToken).rows, device, since, pass.id)
  {
    var after := Register(rows, pass, device, Delete, cred, pushToken).rows;
    assert after == Without(rows, pass.id, device);
    forall r | r in after
      ensures !(r.device == device && r.passId == pass.id)
    {
      assert multiset(after)[r] > 0;
    }
  }

  // ---------------------------------------------------------------------------
  // The two tables

  /** The pass and registration tables, with the id the next created pass receives. */
  class Store {
    var passes: map<nat, Pass>
    var registrations: seq<Registration>
    var nextId: nat

    /** Every pass is stored under its own id, and every registration refers to a stored pass. */
    ghost predicate Valid()
      reads this
    {
      && (forall id :: id in passes ==> passes[id].id == id && id < nextId)
      && (forall r :: r in registrations ==> r.passId in passes)
    }

    constructor ()
      ensures Valid() && passes == map[] && registrations == []
    {
      passes := map[];
      registrations := [];
      nextId := 1;
    }

    /** Creates a pass with a fresh id, the given token and the default `active` flag. */
    method CreatePass(origin: Origin, token: string) returns (pass: Pass)
      requires Valid()
      modifies this
      ensures Valid()
      ensures pass.id !in old(passes) && pass == NewPass(pass.id, origin, token, None)
      ensures passes == old(passes)[pass.id := pass] && registrations == old(registrations)
    {
      pass := NewPass(nextId, origin, token, None);
      passes := passes[nextId := pass];
      nextId := nextId + 1;
    }

    /** The registration endpoint for a stored pass. */
    method RegisterDevice(pass: Pass, device: string, verb: Verb, cred: Credential, pushToken: PushArg)
      returns (reply: Reply)
      requires Valid() && pass.id in passes && passes[pass.id] == pass
      modifies this
      ensures Valid() && passes == old(passes) && nextId == old(nextId)
      ensures Step(reply, registrations) == Register(old(registrations), pass, device, verb, cred, pushToken)
      ensures old(Unique(registrations)) ==> Unique(registrations)
    {
      if Unique(registrations) {
        RegisterKeepsUnique(registrations, pass, device, verb, cred, pushToken);
      }
      var verdict := CheckAuthorization(pass.authenticationToken, cred);
      if verdict.Refused? {
        return verdict.reply;
      }
      if verb == Post && pushToken.Missing? {
        return Raised(PushTokenMissing);
      }
      var regns := Matching(registrations, pass.id, device);
      if regns != [] {
        if verb == Delete {
          ghost var before := registrations;
          registrations := Without(registrations, pass.id, device);
          forall r | r in registrations
            ensures r in before
          {
            assert multiset(registrations)[r] > 0;
          }
        }
        return Status(OK);
      }
      if verb == Delete {
        return Status(NOT_FOUND);
      }
      registrations := registrations + [Registration(pass.id, device, StoredToken(pushToken))];
      return Status(CREATED);
    }

    /**
     * The change query for a device: the passes of its registrations to active
     * passes, collected into a set when changed since the watermark, then no
     * content if that set is empty and their serial numbers grouped by last-update
     * time otherwise.
     */
    method GetPasses(device: string, updatedSince: SinceArg) returns (listing: Listing)
      ensures listing.NoContent? <==> SelectedIds(passes, registrations, device, Since(updatedSince)) == {}
      ensures listing.Code() == if SelectedIds(passes, registrations, device, Since(updatedSince)) == {} then NO_CONTENT else OK
      ensures listing.Changed? ==>
        GroupsExactly(listing.groups, SelectedIds(passes, registrations, device, Since(updatedSince)), passes)
    {
      var since := Since(updatedSince);
      var found := Search(registrations, passes, device);
      var selected := CollectChanged(found, passes, since);
      assert selected == SelectedIds(passes, registrations, device, since) by {
        forall id | id in SelectedIds(passes, registrations, device, since)
          ensures id in selected
        {
          var r :| r in registrations && r.device == device && r.passId == id;
          assert r in found;
        }
      }
      if selected == {} {
        return NoContent;
      }
      var groups := GroupByLastUpdate(selected, passes);
      listing := Changed(groups);
    }
  }

  // ---------------------------------------------------------------------------
  // A client of the store

  /**
   * One device's lifecycle against a new pass: register (201), register again
   * (200), query without a watermark (the pass is listed under its own time),
   * unregister (200), unregister again (404).
   */
  method DeviceLifecycle(origin: Origin, token: string)
    requires ' ' !in token
  {
    var store := new Store();
    var pass := store.CreatePass(origin, token);
    var header := "ApplePass" + " " + token;
    HeaderAuthorization(token, "ApplePass", token);
    var cred := FromHeader(Some(header));

    var reply := store.RegisterDevice(pass, "dev-A", Post, cred, Sent("pt1"));
    assert reply == Status(CREATED);
    reply := store.RegisterDevice(pass, "dev-A", Post, cred, Sent("pt1"));
    assert reply == Status(OK);

    var listing := store.GetPasses("dev-A", Absent);
    assert Registration(pass.id, "dev-A", Some("pt1")) in store.registrations;
    assert pass.id in SelectedIds(store.passes, store.registrations, "dev-A", None);
    assert listing.Changed?;
    assert Decimal.FromNat(pass.id) in listing.groups[LastUpdate(origin)];

    reply := store.RegisterDevice(pass, "dev-A", Delete, cred, Missing);
    assert reply == Status(OK);
    reply := store.RegisterDevice(pass, "dev-A", Delete, cred, Missing);
    assert reply == Status(NOT_FOUND);
  }

}
