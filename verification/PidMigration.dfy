/** The participant-identifier migration: a two-phase rename under a uniqueness constraint,
    and the rewriting of identifiers inside stored payloads. */
module PidMigration {
  import opened Options

  // ----- payload rewriting -----

  /** Stored JSON; numbers, booleans and null are `Other`. */
  datatype Json = Str(text: string) | Arr(items: seq<Json>) | Obj(fields: map<string, Json>) | Other(token: string)

  type Renaming = map<string, string>

  function Rename(m: Renaming, u: string): string
  {
    if u in m then m[u] else u
  }

  /** Strings are renamed, everything else is left alone. */
  function RenameText(m: Renaming, v: Json): Json
  {
    if v.Str? then Str(Rename(m, v.text)) else v
  }

  function RenameField(m: Renaming, fields: map<string, Json>, key: string): (r: map<string, Json>)
    ensures r.Keys == fields.Keys
    ensures forall k :: k in fields ==> r[k] == if k == key then RenameText(m, fields[k]) else fields[k]
  {
    if key in fields && fields[key].Str? && fields[key].text in m then fields[key := Str(m[fields[key].text])] else fields
  }

  function RenamePath(m: Renaming, path: seq<Json>): (r: seq<Json>)
    ensures |r| == |path| && forall i :: 0 <= i < |path| ==> r[i] == RenameText(m, path[i])
  {
    if path == [] then [] else RenamePath(m, path[..|path| - 1]) + [RenameText(m, path[|path| - 1])]
  }

  function RenameRoute(m: Renaming, route: Json): Json
  {
    if route.Obj? && "path" in route.fields && route.fields["path"].Arr?
    then Obj(route.fields["path" := Arr(RenamePath(m, route.fields["path"].items))])
    else route
  }

  function RenameRoutes(m: Renaming, routes: seq<Json>): (r: seq<Json>)
    ensures |r| == |routes| && forall i :: 0 <= i < |routes| ==> r[i] == RenameRoute(m, routes[i])
  {
    if routes == [] then [] else RenameRoutes(m, routes[..|routes| - 1]) + [RenameRoute(m, routes[|routes| - 1])]
  }

  /** The payload with the identifiers under `from`, `to` and every `routes[].path` renamed. */
  function MigrateStrings(m: Renaming, payload: Json): Json
  {
    if !payload.Obj? then payload else
      var ends := RenameField(m, RenameField(m, payload.fields, "from"), "to");
      if "routes" in ends && ends["routes"].Arr?
      then Obj(ends["routes" := Arr(RenameRoutes(m, ends["routes"].items))])
      else Obj(ends)
  }

  /** The places where an identifier is looked for. */
  ghost predicate InPath(route: Json, u: string)
  {
    route.Obj? && "path" in route.fields && route.fields["path"].Arr? && Str(u) in route.fields["path"].items
  }

  ghost predicate InRoutes(routes: seq<Json>, u: string)
  {
    exists i :: 0 <= i < |routes| && InPath(routes[i], u)
  }

  ghost predicate Mentions(payload: Json, u: string)
  {
    && payload.Obj?
    && (|| ("from" in payload.fields && payload.fields["from"] == Str(u))
        || ("to" in payload.fields && payload.fields["to"] == Str(u))
        || ("routes" in payload.fields && payload.fields["routes"].Arr? && InRoutes(payload.fields["routes"].items, u)))
  }

  /** `back` undoes `m`: what one maps, the other maps back, and nothing else. */
  ghost predicate Inverse(m: Renaming, back: Renaming)
  {
    && (forall u :: u in m ==> m[u] in back && back[m[u]] == u)
    && (forall w :: w in back ==> back[w] in m && m[back[w]] == w)
  }

  /** A string survives both renamings: it is renamed, or it is no one's new name. */
  ghost predicate Survives(back: Renaming, m: Renaming, u: string)
  {
    u in m || u !in back
  }

  lemma RenameBack(m: Renaming, back: Renaming, u: string)
    requires Inverse(m, back)
    ensures Rename(back, Rename(m, u)) == u <==> Survives(back, m, u)
  {
  }

  lemma TextBack(m: Renaming, back: Renaming, v: Json)
    requires Inverse(m, back)
    ensures RenameText(back, RenameText(m, v)) == v <==> (v.Str? ==> Survives(back, m, v.text))
  {
    if v.Str? { RenameBack(m, back, v.text); }
  }

  lemma PathBack(m: Renaming, back: Renaming, path: seq<Json>)
    requires Inverse(m, back)
    ensures RenamePath(back, RenamePath(m, path)) == path <==> forall u :: Str(u) in path ==> Survives(back, m, u)
  {
    hide Inverse, Survives, RenameText;
    var r := RenamePath(back, RenamePath(m, path));
    forall i | 0 <= i < |path| ensures r[i] == path[i] <==> (path[i].Str? ==> Survives(back, m, path[i].text)) {
      TextBack(m, back, path[i]);
    }
    if r == path {
      forall u | Str(u) in path ensures Survives(back, m, u) {
        var i :| 0 <= i < |path| && path[i] == Str(u);
      }
    }
    if forall u :: Str(u) in path ==> Survives(back, m, u) {
      assert forall i :: 0 <= i < |path| && path[i].Str? ==> Str(path[i].text) in path;
      assert r == path;
    }
  }

  lemma RouteBack(m: Renaming, back: Renaming, route: Json)
    requires Inverse(m, back)
    ensures RenameRoute(back, RenameRoute(m, route)) == route <==> forall u :: InPath(route, u) ==> Survives(back, m, u)
  {
    hide Inverse, Survives, RenamePath;
    if route.Obj? && "path" in route.fields && route.fields["path"].Arr? {
      var path := route.fields["path"].items;
      PathBack(m, back, path);
      var out := RenamePath(back, RenamePath(m, path));
      assert RenameRoute(back, RenameRoute(m, route)) == Obj(route.fields["path" := Arr(out)]);
      assert route.fields["path" := Arr(out)]["path"] == Arr(out);
      assert route.fields["path" := Arr(path)] == route.fields;
    }
  }

  lemma RoutesBack(m: Renaming, back: Renaming, routes: seq<Json>)
    requires Inverse(m, back)
    ensures RenameRoutes(back, RenameRoutes(m, routes)) == routes <==> forall u :: InRoutes(routes, u) ==> Survives(back, m, u)
  {
    hide Inverse, Survives, RenameRoute, InPath;
    var r := RenameRoutes(back, RenameRoutes(m, routes));
    forall i | 0 <= i < |routes| ensures r[i] == routes[i] <==> forall u :: InPath(routes[i], u) ==> Survives(back, m, u) {
      RouteBack(m, back, routes[i]);
    }
    if forall u :: InRoutes(routes, u) ==> Survives(back, m, u) {
      forall i | 0 <= i < |routes| ensures r[i] == routes[i] {
        assert forall u :: InPath(routes[i], u) ==> InRoutes(routes, u);
      }
    }
  }

  /** What rewriting leaves at each key of a payload. */
  function FieldAfter(m: Renaming, key: string, v: Json): Json
  {
    if key == "from" || key == "to" then RenameText(m, v)
    else if key == "routes" && v.Arr? then Arr(RenameRoutes(m, v.items))
    else v
  }

  lemma MigratedFields(m: Renaming, payload: Json)
    requires payload.Obj?
    ensures MigrateStrings(m, payload) == Obj(map k | k in payload.fields :: FieldAfter(m, k, payload.fields[k]))
  {
    hide RenameText, RenameRoutes, RenameField;
    var r := MigrateStrings(m, payload).fields;
    assert "routes" != "from" && "routes" != "to" && "from" != "to";
    assert r.Keys == payload.fields.Keys;
    forall k | k in payload.fields ensures r[k] == FieldAfter(m, k, payload.fields[k]) {
    }
  }

  ghost predicate FieldMentions(key: string, v: Json, u: string)
  {
    || ((key == "from" || key == "to") && v == Str(u))
    || (key == "routes" && v.Arr? && InRoutes(v.items, u))
  }

  lemma FieldBack(m: Renaming, back: Renaming, key: string, v: Json)
    requires Inverse(m, back)
    ensures FieldAfter(back, key, FieldAfter(m, key, v)) == v <==> forall u :: FieldMentions(key, v, u) ==> Survives(back, m, u)
  {
    hide Inverse, Survives, RenameText, RenameRoutes, InRoutes;
    assert "routes" != "from" && "routes" != "to";
    TextBack(m, back, v);
    if v.Arr? { RoutesBack(m, back, v.items); }
  }

  lemma MentionedInField(payload: Json, u: string)
    requires payload.Obj?
    ensures Mentions(payload, u) <==> exists k :: k in payload.fields && FieldMentions(k, payload.fields[k], u)
  {
    hide InRoutes;
    var f := payload.fields;
    if Mentions(payload, u) {
      assert ("from" in f && FieldMentions("from", f["from"], u)) || ("to" in f && FieldMentions("to", f["to"], u))
          || ("routes" in f && FieldMentions("routes", f["routes"], u));
    }
  }

  /** Renaming and renaming back restores a payload exactly when each string in an identifier's
      place was either renamed or is nobody's new name. */
  lemma PayloadRestoredIff(m: Renaming, back: Renaming, payload: Json)
    requires Inverse(m, back)
    ensures MigrateStrings(back, MigrateStrings(m, payload)) == payload <==> forall u :: Mentions(payload, u) ==> Survives(back, m, u)
  {
    hide Inverse, Survives, MigrateStrings, FieldAfter, FieldMentions, Mentions;
    if !payload.Obj? {
      NotAnObject(m, payload);
      NotAnObject(back, payload);
    } else {
      var f := payload.fields;
      MigratedFields(m, payload);
      var once := MigrateStrings(m, payload);
      MigratedFields(back, once);
      var twice := MigrateStrings(back, once).fields;
      assert twice.Keys == f.Keys;
      forall k | k in f ensures twice[k] == f[k] <==> forall u :: FieldMentions(k, f[k], u) ==> Survives(back, m, u) {
        FieldBack(m, back, k, f[k]);
      }
      forall u ensures Mentions(payload, u) <==> exists k :: k in f && FieldMentions(k, f[k], u) {
        MentionedInField(payload, u);
      }
      assert twice == f <==> forall k :: k in f ==> twice[k] == f[k];
    }
  }

  lemma NotAnObject(m: Renaming, payload: Json)
    requires !payload.Obj?
    ensures MigrateStrings(m, payload) == payload && forall u :: !Mentions(payload, u)
  {
  }

  // ----- the participants table -----

  datatype Person = Person(pid: string, key: string)
  datatype Row = Row(id: string, pid: string, key: string)

  type People = map<string, Person>

  /** The table's uniqueness constraint. */
  ghost predicate UniquePids(people: People)
  {
    forall i, j :: i in people && j in people && i != j ==> people[i].pid != people[j].pid
  }

  /** `rows` is what the database returns for the table, in some order. */
  ghost predicate Fetched(rows: seq<Row>, people: People)
  {
    && (forall i, j :: 0 <= i < j < |rows| ==> rows[i].id != rows[j].id)
    && (forall i :: 0 <= i < |rows| ==> rows[i].id in people && people[rows[i].id] == Person(rows[i].pid, rows[i].key))
    && (forall id :: id in people ==> Listed(rows, id))
  }

  ghost predicate Listed(rows: seq<Row>, id: string)
  {
    exists i :: 0 <= i < |rows| && rows[i].id == id
  }

  const Prefix := "migrating:"

  function Tmp(id: string): string
  {
    Prefix + id
  }

  lemma TmpInjective(a: string, b: string)
    requires Tmp(a) == Tmp(b)
    ensures a == b
  {
    assert Tmp(a)[|Prefix|..] == a && Tmp(b)[|Prefix|..] == b;
  }

  /** The table holds the rows with the identifiers `pids` in place of the fetched ones. */
  ghost predicate Holds(people: People, rows: seq<Row>, pids: seq<string>)
  {
    && |pids| == |rows|
    && (forall i, j :: 0 <= i < j < |rows| ==> rows[i].id != rows[j].id)
    && (forall id :: id in people <==> Listed(rows, id))
    && (forall i :: 0 <= i < |rows| ==> rows[i].id in people && people[rows[i].id] == Person(pids[i], rows[i].key))
  }

  /** No other row has this identifier. */
  ghost predicate Free(people: People, id: string, pid: string)
  {
    forall j :: j in people && j != id ==> people[j].pid != pid
  }

  lemma FreeByRow(people: People, rows: seq<Row>, pids: seq<string>, i: nat, pid: string)
    requires Holds(people, rows, pids) && i < |rows|
    ensures Free(people, rows[i].id, pid) <==> forall k :: 0 <= k < |rows| && k != i ==> pids[k] != pid
  {
    if Free(people, rows[i].id, pid) {
      forall k | 0 <= k < |rows| && k != i ensures pids[k] != pid {
        assert rows[k].id != rows[i].id;
        assert people[rows[k].id].pid == pids[k];
      }
    }
    if forall k :: 0 <= k < |rows| && k != i ==> pids[k] != pid {
      forall j | j in people && j != rows[i].id ensures people[j].pid != pid {
        assert Listed(rows, j);
        var k :| 0 <= k < |rows| && rows[k].id == j;
        assert people[rows[k].id].pid == pids[k];
      }
    }
  }

  lemma SetHolds(people: People, rows: seq<Row>, pids: seq<string>, i: nat, pid: string)
    requires Holds(people, rows, pids) && i < |rows|
    ensures Holds(people[rows[i].id := Person(pid, rows[i].key)], rows, pids[i := pid])
  {
  }

  function OldPids(rows: seq<Row>): (r: seq<string>)
    ensures |r| == |rows| && forall i :: 0 <= i < |rows| ==> r[i] == rows[i].pid
  {
    seq(|rows|, i requires 0 <= i < |rows| => rows[i].pid)
  }

  function TmpPids(rows: seq<Row>): (r: seq<string>)
    ensures |r| == |rows| && forall i :: 0 <= i < |rows| ==> r[i] == Tmp(rows[i].id)
  {
    seq(|rows|, i requires 0 <= i < |rows| => Tmp(rows[i].id))
  }

  function NewPids(rows: seq<Row>, m: Renaming): (r: seq<string>)
    ensures |r| == |rows| && forall i :: 0 <= i < |rows| ==> r[i] == Rename(m, rows[i].pid)
  {
    seq(|rows|, i requires 0 <= i < |rows| => Rename(m, rows[i].pid))
  }

  /** The derivation of an identifier from a public key fails on a malformed key. */
  type Derive = string -> Option<string>

  /** Every key is well-formed and no two rows derive the same identifier. */
  ghost predicate Derivable(rows: seq<Row>, derive: Derive)
  {
    && (forall i :: 0 <= i < |rows| ==> derive(rows[i].key).Some?)
    && (forall i, j :: 0 <= i < j < |rows| ==> derive(rows[i].key) != derive(rows[j].key))
  }

  /** `m` takes each fetched identifier to the derived one, and nothing else. */
  ghost predicate MapsRows(m: Renaming, rows: seq<Row>, derive: Derive)
  {
    && (forall i :: 0 <= i < |rows| ==> rows[i].pid in m && derive(rows[i].key) == Some(m[rows[i].pid]))
    && (forall u :: u in m ==> exists i :: 0 <= i < |rows| && rows[i].pid == u)
  }

  /** Builds the renaming, refusing malformed keys and repeated results. */
  method BuildMapping(rows: seq<Row>, derive: Derive) returns (m: Renaming, ok: bool)
    requires forall i, j :: 0 <= i < j < |rows| ==> rows[i].pid != rows[j].pid
    ensures ok <==> Derivable(rows, derive)
    ensures ok ==> MapsRows(m, rows, derive)
  {
    m, ok := map[], false;
    var seen: set<string> := {};
    for i := 0 to |rows|
      invariant Derivable(rows[..i], derive) && MapsRows(m, rows[..i], derive)
      invariant forall s :: s in seen <==> exists k :: 0 <= k < i && derive(rows[k].key) == Some(s)
    {
      var derived := derive(rows[i].key);
      if derived.None? { return; }
      if derived.value in seen {
        var k :| 0 <= k < i && derive(rows[k].key) == Some(derived.value);
        assert derive(rows[k].key) == derive(rows[i].key);
        return;
      }
      ExtendMapping(m, rows, i, derive);
      m := m[rows[i].pid := derived.value];
      seen := seen + {derived.value};
    }
    assert rows[..|rows|] == rows;
    ok := true;
  }

  lemma ExtendMapping(m: Renaming, rows: seq<Row>, i: nat, derive: Derive)
    requires i < |rows| && MapsRows(m, rows[..i], derive) && derive(rows[i].key).Some?
    requires forall i, j :: 0 <= i < j < |rows| ==> rows[i].pid != rows[j].pid
    ensures MapsRows(m[rows[i].pid := derive(rows[i].key).value], rows[..i + 1], derive)
  {
    var s := rows[..i + 1];
    var m' := m[rows[i].pid := derive(rows[i].key).value];
    forall k | 0 <= k < |s| ensures s[k].pid in m' && derive(s[k].key) == Some(m'[s[k].pid]) {
      if k < i { assert s[k] == rows[..i][k]; }
    }
    forall u | u in m' ensures exists k :: 0 <= k < |s| && s[k].pid == u {
      if u == rows[i].pid {
        assert s[i].pid == u;
      } else {
        var k :| 0 <= k < |rows[..i]| && rows[..i][k].pid == u;
        assert s[k].pid == u;
      }
    }
  }

  /** No later row carries the temporary identifier of row `i`. */
  ghost predicate FirstClearAt(rows: seq<Row>, i: nat)
    requires i < |rows|
  {
    forall k :: i < k < |rows| ==> rows[k].pid != Tmp(rows[i].id)
  }

  ghost predicate FirstClearTo(rows: seq<Row>, n: nat)
    requires n <= |rows|
  {
    forall i :: 0 <= i < n ==> FirstClearAt(rows, i)
  }

  /** No row carries the temporary identifier of an earlier one. */
  ghost predicate FirstPhaseClear(rows: seq<Row>)
  {
    FirstClearTo(rows, |rows|)
  }

  /** Row `i` does not derive the temporary identifier of a later one. */
  ghost predicate SecondClearAt(rows: seq<Row>, derive: Derive, i: nat)
    requires i < |rows|
  {
    forall k :: i < k < |rows| ==> derive(rows[i].key) != Some(Tmp(rows[k].id))
  }

  ghost predicate SecondClearTo(rows: seq<Row>, derive: Derive, n: nat)
    requires n <= |rows|
  {
    forall i :: 0 <= i < n ==> SecondClearAt(rows, derive, i)
  }

  /** No row derives the temporary identifier of a later one. */
  ghost predicate SecondPhaseClear(rows: seq<Row>, derive: Derive)
  {
    SecondClearTo(rows, derive, |rows|)
  }

  /** The identifiers after the first `i` updates of a phase. */
  function Halfway(to: seq<string>, from: seq<string>, i: nat): (r: seq<string>)
    requires |to| == |from| && i <= |to|
    ensures |r| == |to| && forall k :: 0 <= k < |to| ==> r[k] == if k < i then to[k] else from[k]
  {
    to[..i] + from[i..]
  }

  /** Where no identifier, old or derived, has the temporary prefix, nothing can collide. */
  lemma PrefixFreeIsClear(rows: seq<Row>, derive: Derive)
    requires forall i :: 0 <= i < |rows| ==> !(Prefix <= rows[i].pid)
    requires forall i :: 0 <= i < |rows| && derive(rows[i].key).Some? ==> !(Prefix <= derive(rows[i].key).value)
    ensures FirstPhaseClear(rows) && SecondPhaseClear(rows, derive)
  {
    assert forall id :: Prefix <= Tmp(id);
  }

  datatype Outcome = Done | Refused | Conflict

  class Store {
    var people: People
    var challenges: map<string, string>
    var payloads: map<string, Json>

    constructor (people: People, challenges: map<string, string>, payloads: map<string, Json>)
      ensures this.people == people && this.challenges == challenges && this.payloads == payloads
    {
      this.people, this.challenges, this.payloads := people, challenges, payloads;
    }

    /** One UPDATE: the database refuses an identifier that another row has. */
    method SetPid(id: string, pid: string) returns (ok: bool)
      requires UniquePids(people) && id in people
      modifies this`people
      ensures UniquePids(people)
      ensures ok <==> old(Free(people, id, pid))
      ensures people == if ok then old(people)[id := Person(pid, old(people)[id].key)] else old(people)
    {
      ok := forall j <- people :: j != id ==> people[j].pid != pid;
      if ok {
        people := people[id := Person(pid, people[id].key)];
      }
    }

    /** First phase: every row gets its temporary identifier. */
    method FirstPhase(rows: seq<Row>) returns (ok: bool)
      requires UniquePids(people) && Fetched(rows, people)
      modifies this`people
      ensures UniquePids(people)
      ensures ok <==> FirstPhaseClear(rows)
      ensures ok ==> Holds(people, rows, TmpPids(rows))
    {
      hide UniquePids, Fetched, Holds, Free, Tmp, TmpPids, OldPids, FirstClearTo, FirstClearAt, Halfway;
      ok := false;
      StartHolds(people, rows);
      NothingClearedYet(rows, _ => None);
      NoneReplaced(TmpPids(rows), OldPids(rows));
      for i := 0 to |rows|
        invariant UniquePids(people) && Holds(people, rows, Halfway(TmpPids(rows), OldPids(rows), i))
        invariant FirstClearTo(rows, i)
      {
        FirstStep(people, rows, i);
        var done := SetPid(rows[i].id, Tmp(rows[i].id));
        if !done { return; }
      }
      ok := true;
    }

    /** Second phase: every row gets the identifier its fetched one is mapped to. */
    method SecondPhase(rows: seq<Row>, m: Renaming, derive: Derive) returns (ok: bool)
      requires UniquePids(people) && Holds(people, rows, TmpPids(rows)) && Derivable(rows, derive) && MapsRows(m, rows, derive)
      modifies this`people
      ensures UniquePids(people)
      ensures ok <==> SecondPhaseClear(rows, derive)
      ensures ok ==> Holds(people, rows, NewPids(rows, m))
    {
      hide MapsRows, Derivable, UniquePids, Holds, Free, Tmp, TmpPids, NewPids, Rename, SecondClearTo, SecondClearAt, Halfway;
      ok := false;
      NoneReplaced(NewPids(rows, m), TmpPids(rows));
      NothingClearedYet(rows, derive);
      for i := 0 to |rows|
        invariant UniquePids(people) && Holds(people, rows, Halfway(NewPids(rows, m), TmpPids(rows), i))
        invariant SecondClearTo(rows, derive, i)
      {
        SecondStep(people, rows, m, derive, i);
        var done := SetPid(rows[i].id, m[rows[i].pid]);
        if !done { return; }
      }
      ok := true;
    }
  }

  lemma NoneReplaced(to: seq<string>, from: seq<string>)
    requires |to| == |from|
    ensures Halfway(to, from, 0) == from && Halfway(to, from, |to|) == to
  {
  }

  lemma NothingClearedYet(rows: seq<Row>, derive: Derive)
    ensures FirstClearTo(rows, 0) && SecondClearTo(rows, derive, 0)
  {
  }

  lemma StartHolds(people: People, rows: seq<Row>)
    requires Fetched(rows, people)
    ensures Holds(people, rows, OldPids(rows))
  {
    assert forall i :: 0 <= i < |rows| ==> Listed(rows, rows[i].id);
  }

  /** One update succeeds when the identifier is free, and moves the phase one row on. */
  lemma SetOne(people: People, rows: seq<Row>, to: seq<string>, from: seq<string>, i: nat)
    requires i < |rows| == |to| == |from| && Holds(people, rows, Halfway(to, from, i))
    ensures rows[i].id in people && people[rows[i].id].key == rows[i].key
    ensures Free(people, rows[i].id, to[i]) <==> (forall k :: 0 <= k < i ==> to[k] != to[i]) && (forall k :: i < k < |rows| ==> from[k] != to[i])
    ensures Holds(people[rows[i].id := Person(to[i], rows[i].key)], rows, Halfway(to, from, i + 1))
  {
    hide Free, Halfway;
    FreeByRow(people, rows, Halfway(to, from, i), i, to[i]);
    SetHolds(people, rows, Halfway(to, from, i), i, to[i]);
    assert Halfway(to, from, i)[i := to[i]] == Halfway(to, from, i + 1);
  }

  lemma FirstStep(people: People, rows: seq<Row>, i: nat)
    requires i < |rows| && Holds(people, rows, Halfway(TmpPids(rows), OldPids(rows), i))
    ensures rows[i].id in people && people[rows[i].id].key == rows[i].key
    ensures Free(people, rows[i].id, Tmp(rows[i].id)) <==> FirstClearAt(rows, i)
    ensures FirstClearAt(rows, i) && FirstClearTo(rows, i) ==> FirstClearTo(rows, i + 1)
    ensures !FirstClearAt(rows, i) ==> !FirstPhaseClear(rows)
    ensures Holds(people[rows[i].id := Person(Tmp(rows[i].id), rows[i].key)], rows, Halfway(TmpPids(rows), OldPids(rows), i + 1))
  {
    hide Free, Tmp, TmpPids, OldPids, Halfway;
    SetOne(people, rows, TmpPids(rows), OldPids(rows), i);
    forall k | 0 <= k < i ensures Tmp(rows[k].id) != Tmp(rows[i].id) {
      if Tmp(rows[k].id) == Tmp(rows[i].id) { TmpInjective(rows[k].id, rows[i].id); }
    }
  }

  lemma SecondStep(people: People, rows: seq<Row>, m: Renaming, derive: Derive, i: nat)
    requires i < |rows| && Holds(people, rows, Halfway(NewPids(rows, m), TmpPids(rows), i))
    requires Derivable(rows, derive) && MapsRows(m, rows, derive)
    ensures rows[i].id in people && people[rows[i].id].key == rows[i].key && rows[i].pid in m
    ensures Free(people, rows[i].id, m[rows[i].pid]) <==> SecondClearAt(rows, derive, i)
    ensures SecondClearAt(rows, derive, i) && SecondClearTo(rows, derive, i) ==> SecondClearTo(rows, derive, i + 1)
    ensures !SecondClearAt(rows, derive, i) ==> !SecondPhaseClear(rows, derive)
    ensures Holds(people[rows[i].id := Person(m[rows[i].pid], rows[i].key)], rows, Halfway(NewPids(rows, m), TmpPids(rows), i + 1))
  {
    hide Free, Tmp, TmpPids, NewPids, Halfway, Holds;
    SetOne(people, rows, NewPids(rows, m), TmpPids(rows), i);
    assert NewPids(rows, m)[i] == m[rows[i].pid];
    forall k | 0 <= k < i ensures NewPids(rows, m)[k] != NewPids(rows, m)[i] {
      assert derive(rows[k].key) == Some(NewPids(rows, m)[k]);
      assert derive(rows[k].key) != derive(rows[i].key);
    }
  }

  // ----- the whole migration -----

  /** The table with every identifier derived afresh from its key. */
  ghost predicate Renamed(before: People, after: People, derive: Derive)
  {
    && after.Keys == before.Keys
    && (forall id :: id in before ==> after[id].key == before[id].key && derive(before[id].key) == Some(after[id].pid))
  }

  /** `m` takes each identifier of the table to the one derived from its key. */
  ghost predicate MapsTable(m: Renaming, people: People, derive: Derive)
  {
    && (forall id :: id in people ==> people[id].pid in m && derive(people[id].key) == Some(m[people[id].pid]))
    && (forall u :: u in m ==> exists id :: id in people && people[id].pid == u)
  }

  ghost predicate DerivesApart(people: People, derive: Derive)
  {
    && (forall id :: id in people ==> derive(people[id].key).Some?)
    && (forall i, j :: i in people && j in people && i != j ==> derive(people[i].key) != derive(people[j].key))
  }

  lemma FetchedPidsDiffer(rows: seq<Row>, people: People)
    requires UniquePids(people) && Fetched(rows, people)
    ensures forall i, j :: 0 <= i < j < |rows| ==> rows[i].pid != rows[j].pid
  {
    forall i, j | 0 <= i < j < |rows| ensures rows[i].pid != rows[j].pid {
      assert people[rows[i].id].pid == rows[i].pid && people[rows[j].id].pid == rows[j].pid;
    }
  }

  lemma DerivableIff(rows: seq<Row>, people: People, derive: Derive)
    requires Fetched(rows, people)
    ensures Derivable(rows, derive) <==> DerivesApart(people, derive)
  {
    if Derivable(rows, derive) {
      forall id | id in people ensures derive(people[id].key).Some? {
        assert Listed(rows, id);
        var i :| 0 <= i < |rows| && rows[i].id == id;
      }
      forall a, b | a in people && b in people && a != b ensures derive(people[a].key) != derive(people[b].key) {
        assert Listed(rows, a) && Listed(rows, b);
        var i :| 0 <= i < |rows| && rows[i].id == a;
        var j :| 0 <= j < |rows| && rows[j].id == b;
        assert derive(rows[i].key) != derive(rows[j].key);
      }
    }
  }

  lemma RowsMapTable(m: Renaming, rows: seq<Row>, people: People, derive: Derive)
    requires Fetched(rows, people) && MapsRows(m, rows, derive)
    ensures MapsTable(m, people, derive)
  {
    forall id | id in people ensures people[id].pid in m && derive(people[id].key) == Some(m[people[id].pid]) {
      assert Listed(rows, id);
      var i :| 0 <= i < |rows| && rows[i].id == id;
    }
    forall u | u in m ensures exists id :: id in people && people[id].pid == u {
      var i :| 0 <= i < |rows| && rows[i].pid == u;
      assert people[rows[i].id].pid == u;
    }
  }

  lemma RowIsRenamed(before: People, after: People, rows: seq<Row>, m: Renaming, derive: Derive, i: nat)
    requires Fetched(rows, before) && MapsRows(m, rows, derive) && Holds(after, rows, NewPids(rows, m)) && i < |rows|
    ensures var id := rows[i].id;
            id in before && id in after && after[id].key == before[id].key && derive(before[id].key) == Some(after[id].pid)
  {
    hide Listed, NewPids;
    assert NewPids(rows, m)[i] == Rename(m, rows[i].pid);
  }

  lemma HeldIsRenamed(before: People, after: People, rows: seq<Row>, m: Renaming, derive: Derive)
    requires Fetched(rows, before) && MapsRows(m, rows, derive) && Holds(after, rows, NewPids(rows, m))
    ensures Renamed(before, after, derive)
  {
    hide NewPids, UniquePids;
    assert forall i :: 0 <= i < |rows| ==> Listed(rows, rows[i].id);
    forall id | id in before ensures id in after && after[id].key == before[id].key && derive(before[id].key) == Some(after[id].pid) {
      assert Listed(rows, id);
      var i :| 0 <= i < |rows| && rows[i].id == id;
      RowIsRenamed(before, after, rows, m, derive, i);
    }
    forall id | id in after ensures id in before {
      assert Listed(rows, id);
      var i :| 0 <= i < |rows| && rows[i].id == id;
      assert rows[i].id in before;
    }
  }

  /** The upgrade, and the downgrade with the other derivation. Every single UPDATE keeps the
      identifiers unique, and all of them succeed exactly when the keys derive distinct
      identifiers and neither phase meets a temporary identifier in another row. */
  method Migrate(store: Store, rows: seq<Row>, derive: Derive) returns (outcome: Outcome, m: Renaming)
    requires UniquePids(store.people) && Fetched(rows, store.people)
    modifies store
    ensures UniquePids(store.people)
    ensures outcome != Refused <==> DerivesApart(old(store.people), derive)
    ensures outcome == Done <==> DerivesApart(old(store.people), derive) && FirstPhaseClear(rows) && SecondPhaseClear(rows, derive)
    ensures outcome == Done ==> Renamed(old(store.people), store.people, derive) && MapsTable(m, old(store.people), derive)
    ensures outcome == Done ==> store.challenges == map id | id in old(store.challenges) :: Rename(m, old(store.challenges)[id])
    ensures outcome == Done ==> store.payloads == map id | id in old(store.payloads) :: MigrateStrings(m, old(store.payloads)[id])
    ensures outcome == Refused ==> store.people == old(store.people)
    ensures outcome != Done ==> store.challenges == old(store.challenges) && store.payloads == old(store.payloads)
  {
    hide *;
    ghost var before := store.people;
    FetchedPidsDiffer(rows, before);
    DerivableIff(rows, before, derive);
    var built;
    m, built := BuildMapping(rows, derive);
    if !built { return Refused, m; }
    RowsMapTable(m, rows, before, derive);
    var done := store.FirstPhase(rows);
    if !done { return Conflict, m; }
    done := store.SecondPhase(rows, m, derive);
    if !done { return Conflict, m; }
    HeldIsRenamed(before, store.people, rows, m, derive);
    RewriteChallenges(store, m);
    RewritePayloads(store, m);
    outcome := Done;
  }

  /** Row by row, in whatever order they come; rows without a renamed identifier are skipped. */
  method RewriteChallenges(store: Store, m: Renaming)
    modifies store`challenges
    ensures store.challenges == map id | id in old(store.challenges) :: Rename(m, old(store.challenges)[id])
  {
    var todo, rows := store.challenges.Keys, store.challenges;
    while todo != {}
      invariant todo <= rows.Keys && store.challenges.Keys == rows.Keys
      invariant forall id :: id in rows ==> store.challenges[id] == if id in todo then rows[id] else Rename(m, rows[id])
      decreases todo
    {
      var id :| id in todo;
      if rows[id] in m {
        store.challenges := store.challenges[id := m[rows[id]]];
      }
      todo := todo - {id};
    }
  }

  method RewritePayloads(store: Store, m: Renaming)
    modifies store`payloads
    ensures store.payloads == map id | id in old(store.payloads) :: MigrateStrings(m, old(store.payloads)[id])
  {
    hide MigrateStrings;
    var todo, rows := store.payloads.Keys, store.payloads;
    while todo != {}
      invariant todo <= rows.Keys && store.payloads.Keys == rows.Keys
      invariant forall id :: id in rows ==> store.payloads[id] == if id in todo then rows[id] else MigrateStrings(m, rows[id])
      decreases todo
    {
      var id :| id in todo;
      var payload := MigrateStrings(m, rows[id]);
      if payload != rows[id] {
        store.payloads := store.payloads[id := payload];
      }
      todo := todo - {id};
    }
  }

  // ----- upgrade, then downgrade -----

  /** What an upgrade leaves behind: the table renamed, and the renamings of an upgrade and of the
      downgrade after it, where the stored identifiers were the ones the downgrade derives. */
  ghost predicate Upgraded(before: People, after: People, v1: Derive, v0: Derive, up: Renaming, down: Renaming)
  {
    && UniquePids(before) && DerivesApart(before, v1) && Renamed(before, after, v1)
    && MapsTable(up, before, v1) && MapsTable(down, after, v0)
    && (forall id :: id in before ==> v0(before[id].key) == Some(before[id].pid))
  }

  lemma PidMoves(before: People, after: People, v1: Derive, v0: Derive, up: Renaming, down: Renaming, id: string)
    requires Upgraded(before, after, v1, v0, up, down) && id in before
    ensures id in after && before[id].pid in up && after[id].pid in down
    ensures up[before[id].pid] == after[id].pid && down[after[id].pid] == before[id].pid
  {
  }

  /** The two renamings are each other's inverse, and the participants table is back where it
      was after both. */
  lemma DowngradeInverts(before: People, after: People, v1: Derive, v0: Derive, up: Renaming, down: Renaming)
    requires Upgraded(before, after, v1, v0, up, down)
    ensures Inverse(up, down)
    ensures forall final :: Renamed(after, final, v0) ==> final == before
  {
    forall u | u in up ensures up[u] in down && down[up[u]] == u {
      var id :| id in before && before[id].pid == u;
      PidMoves(before, after, v1, v0, up, down, id);
    }
    forall w | w in down ensures down[w] in up && up[down[w]] == w {
      var id :| id in after && after[id].pid == w;
      PidMoves(before, after, v1, v0, up, down, id);
    }
    forall final | Renamed(after, final, v0) ensures final == before {
      assert forall id :: id in before ==> final[id] == before[id];
    }
  }

  /** So a stored payload comes back unchanged exactly when no string in an identifier's place
      is a new identifier that was nobody's old one. */
  lemma DowngradeRestoresPayloadIff(before: People, after: People, v1: Derive, v0: Derive, up: Renaming, down: Renaming, payload: Json)
    requires Upgraded(before, after, v1, v0, up, down)
    ensures MigrateStrings(down, MigrateStrings(up, payload)) == payload
            <==> forall u :: Mentions(payload, u) ==> (HasPid(before, u) || !HasPid(after, u))
  {
    hide MigrateStrings, Mentions, UniquePids, DerivesApart, Inverse;
    DowngradeInverts(before, after, v1, v0, up, down);
    PayloadRestoredIff(up, down, payload);
    forall u ensures Survives(down, up, u) <==> (HasPid(before, u) || !HasPid(after, u)) {
    }
  }

  ghost predicate HasPid(people: People, u: string)
  {
    exists id :: id in people && people[id].pid == u
  }

  /** A participant whose stored identifier looks like another's temporary one stops the first
      phase, although all derived identifiers are distinct. */
  lemma TemporaryPidConflicts()
    ensures var rows := [Row("1", "a", "k"), Row("2", "migrating:1", "l")];
            var derive: Derive := key => Some(key);
            Derivable(rows, derive) && SecondPhaseClear(rows, derive) && !FirstPhaseClear(rows)
  {
    var rows := [Row("1", "a", "k"), Row("2", "migrating:1", "l")];
    assert rows[1].pid == Tmp(rows[0].id);
    assert !FirstClearAt(rows, 0);
  }
}
