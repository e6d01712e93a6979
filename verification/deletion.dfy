/** The selection rule of `cleanup_specific` in app.py: which registry
    entries a client's explicit delete request reaches, as functions on the
    table, and what that request does to it.

    The table functions take the match test as a `Rule`, so that the facts
    about scanning and filtering are proved once, apart from the path
    arithmetic; `MatchRule` is the test the source applies. */
module Deletion {
  import opened Paths
  import opened Registry

  /** The requested path made absolute under the application root: a leading
      '/' is dropped and the rest joined onto the root with `os.path.join`.
      The result ends with the request less that '/', and is exactly it when
      the rest is itself absolute. */
  function Normalize(root: string, p: string): (r: string)
    ensures var q := if IsAbsolute(p) then p[1..] else p;
            && |q| <= |r| && r[|r| - |q|..] == q
            && (IsAbsolute(q) ==> r == q)
  {
    if IsAbsolute(p) then Join(root, p[1..]) else Join(root, p)
  }

  /** The test of the inner loop: the entry's path equals the normalised
      request, or the two basenames agree; and the entry belongs to the
      caller's session. */
  predicate Matches(e: Record, p: string, session: string, root: string) {
    (e.path == Normalize(root, p) || Basename(e.path) == Basename(p)) && e.sessionId == session
  }

  /** A test of whether a requested path reaches a registry entry. */
  type Rule = (Record, string) -> bool

  /** The source's test for a caller in `session`, under application root `root`. */
  function MatchRule(session: string, root: string): Rule {
    (e: Record, p: string) => Matches(e, p, session, root)
  }

  /** The entries of `t` one requested path reaches, in table order: at
      most one per row. */
  function Hits(t: seq<Record>, p: string, rule: Rule): (r: seq<Record>)
    ensures |r| <= |t|
  {
    if t == [] then []
    else Hits(t[..|t| - 1], p, rule) + (if rule(t[|t| - 1], p) then [t[|t| - 1]] else [])
  }

  /** `files_to_remove` after the nested loops: for each requested path in
      turn, the entries it reaches. An entry reached by several requested
      paths occurs once per path, so there are at most as many marks as
      (path, row) pairs. */
  function Matched(paths: seq<string>, t: seq<Record>, rule: Rule): seq<Record> {
    if paths == [] then []
    else Matched(paths[..|paths| - 1], t, rule) + Hits(t, paths[|paths| - 1], rule)
  }

  /** Some requested path reaches the entry. */
  predicate Requested(e: Record, paths: seq<string>, rule: Rule) {
    paths != [] && (Requested(e, paths[..|paths| - 1], rule) || rule(e, paths[|paths| - 1]))
  }

  /** The table after the request: the entries no requested path reaches, in
      table order; it is never longer than the table. */
  function Unselected(t: seq<Record>, paths: seq<string>, rule: Rule): (r: seq<Record>)
    ensures |r| <= |t|
  {
    if t == [] then []
    else Unselected(t[..|t| - 1], paths, rule) + (if Requested(t[|t| - 1], paths, rule) then [] else [t[|t| - 1]])
  }

  /** The full-path comparison never decides anything: an entry whose path
      equals the normalised request also has the request's basename, so an
      entry is reached exactly when it is the caller's and its basename is
      the requested one, whatever directory either path names. */
  lemma MatchesIsBasenameMatch(e: Record, p: string, session: string, root: string)
    ensures Matches(e, p, session, root) <==> Basename(e.path) == Basename(p) && e.sessionId == session
  {
    if IsAbsolute(p) {
      BasenameOfJoin(root, p[1..]);
      BasenameWithoutLeadingSlash(p);
    } else {
      BasenameOfJoin(root, p);
    }
  }

  /** A reached entry is matched by one of the requested paths. */
  lemma {:induction false} RequestedWitness(e: Record, paths: seq<string>, rule: Rule)
    requires Requested(e, paths, rule)
    ensures exists i :: 0 <= i < |paths| && rule(e, paths[i])
  {
    var init := paths[..|paths| - 1];
    if Requested(e, init, rule) {
      RequestedWitness(e, init, rule);
      var i :| 0 <= i < |init| && rule(e, init[i]);
      assert paths[i] == init[i];
    } else {
      assert rule(e, paths[|paths| - 1]);
    }
  }

  /** An entry matched by any one of the requested paths is reached. */
  lemma {:induction false} RequestedByAny(e: Record, paths: seq<string>, rule: Rule, i: nat)
    requires i < |paths| && rule(e, paths[i])
    ensures Requested(e, paths, rule)
  {
    var init := paths[..|paths| - 1];
    if i < |init| {
      assert init[i] == paths[i];
      RequestedByAny(e, init, rule, i);
    }
  }

  /** One requested path reaches exactly the entries of the table it matches. */
  lemma {:induction false} HitsMembers(t: seq<Record>, p: string, rule: Rule)
    ensures forall r :: r in Hits(t, p, rule) <==> r in t && rule(r, p)
  {
    if t != [] {
      HitsMembers(t[..|t| - 1], p, rule);
      assert t == t[..|t| - 1] + [t[|t| - 1]];
    }
  }

  /** An entry is marked for removal exactly when it is in the table and some
      requested path reaches it. */
  lemma {:induction false} MatchedMembers(paths: seq<string>, t: seq<Record>, rule: Rule)
    ensures forall r :: r in Matched(paths, t, rule) <==> r in t && Requested(r, paths, rule)
  {
    if paths != [] {
      MatchedMembers(paths[..|paths| - 1], t, rule);
      HitsMembers(t, paths[|paths| - 1], rule);
    }
  }

  /** An entry stays in the table exactly when it was there and no requested
      path reaches it. */
  lemma {:induction false} UnselectedMembers(t: seq<Record>, paths: seq<string>, rule: Rule)
    ensures forall r :: r in Unselected(t, paths, rule) <==> r in t && !Requested(r, paths, rule)
  {
    if t != [] {
      UnselectedMembers(t[..|t| - 1], paths, rule);
      assert t == t[..|t| - 1] + [t[|t| - 1]];
    }
  }

  /** The source filters by "not among the marked entries"; when the marked
      entries are exactly the requested ones, that filter is `Unselected`. */
  lemma {:induction false} WithoutRequestedIsUnselected(t: seq<Record>, marked: seq<Record>, paths: seq<string>,
                                                         rule: Rule)
    requires forall r :: r in t ==> (r in marked <==> Requested(r, paths, rule))
    ensures Without(t, marked) == Unselected(t, paths, rule)
  {
    if t != [] {
      assert t == t[..|t| - 1] + [t[|t| - 1]];
      WithoutRequestedIsUnselected(t[..|t| - 1], marked, paths, rule);
    }
  }

  /** The source's filter by its own marks: dropping from the table every
      entry marked by the scan leaves exactly the entries no requested path
      reaches. */
  lemma WithoutMatchedIsUnselected(paths: seq<string>, t: seq<Record>, rule: Rule)
    ensures Without(t, Matched(paths, t, rule)) == Unselected(t, paths, rule)
  {
    MatchedMembers(paths, t, rule);
    WithoutRequestedIsUnselected(t, Matched(paths, t, rule), paths, rule);
  }

  /** There are at most as many marks as (requested path, row) pairs. */
  lemma {:induction false} MatchedBound(paths: seq<string>, t: seq<Record>, rule: Rule)
    ensures |Matched(paths, t, rule)| <= |paths| * |t|
  {
    if paths != [] {
      MatchedBound(paths[..|paths| - 1], t, rule);
      assert |paths| * |t| == (|paths| - 1) * |t| + |t|;
    }
  }

  /** Adding a row to the table adds at least one mark when some requested
      path reaches it. */
  lemma {:induction false} MatchedGrowth(paths: seq<string>, init: seq<Record>, x: Record, rule: Rule)
    ensures |Matched(paths, init + [x], rule)| >= |Matched(paths, init, rule)| + if Requested(x, paths, rule) then 1 else 0
  {
    if paths != [] {
      var rest, p := paths[..|paths| - 1], paths[|paths| - 1];
      MatchedGrowth(rest, init, x, rule);
      assert (init + [x])[..|init + [x]| - 1] == init;
      assert Hits(init + [x], p, rule) == Hits(init, p, rule) + if rule(x, p) then [x] else [];
    }
  }

  /** The reported count never falls short of the number of rows removed:
      every removed row was marked at least once. */
  lemma {:induction false} CountCoversRemoved(paths: seq<string>, t: seq<Record>, rule: Rule)
    ensures |Matched(paths, t, rule)| >= |t| - |Unselected(t, paths, rule)|
  {
    if t != [] {
      var init, x := t[..|t| - 1], t[|t| - 1];
      CountCoversRemoved(paths, init, rule);
      assert t == init + [x];
      MatchedGrowth(paths, init, x, rule);
    }
  }

  /** The request only ever removes: what remains is a sub-multiset of the
      table, and every entry that lost an occurrence was reached by some
      requested path. */
  lemma {:induction false} OnlyRequestedRemoved(t: seq<Record>, paths: seq<string>, rule: Rule, e: Record)
    ensures multiset(Unselected(t, paths, rule))[e] <= multiset(t)[e]
    ensures multiset(Unselected(t, paths, rule))[e] < multiset(t)[e] ==> Requested(e, paths, rule)
  {
    if t != [] {
      var init, last := t[..|t| - 1], t[|t| - 1];
      OnlyRequestedRemoved(init, paths, rule, e);
      assert t == init + [last];
      var u := Unselected(init, paths, rule);
      assert multiset(t)[e] == multiset(init)[e] + multiset([last])[e];
      if !Requested(last, paths, rule) {
        assert multiset(u + [last])[e] == multiset(u)[e] + multiset([last])[e];
      }
    }
  }

  /** Only the caller's entries can be reached. */
  lemma {:induction false} RequestedIsCallers(e: Record, paths: seq<string>, session: string, root: string)
    requires Requested(e, paths, MatchRule(session, root))
    ensures e.sessionId == session
  {
    var init := paths[..|paths| - 1];
    if Requested(e, init, MatchRule(session, root)) {
      RequestedIsCallers(e, init, session, root);
    }
  }

  /** Another session's entries are never removed: each occurs in the table
      after the request as many times as before. */
  lemma OtherSessionsUntouched(t: seq<Record>, paths: seq<string>, session: string, root: string, e: Record)
    requires e.sessionId != session
    ensures multiset(Unselected(t, paths, MatchRule(session, root)))[e] == multiset(t)[e]
  {
    OnlyRequestedRemoved(t, paths, MatchRule(session, root), e);
    if Requested(e, paths, MatchRule(session, root)) {
      RequestedIsCallers(e, paths, session, root);
    }
  }

  /** A path the request deletes from disk is the path of one of the
      caller's entries that a requested path reached. */
  lemma DeletedPathsAreCallers(paths: seq<string>, t: seq<Record>, session: string, root: string, p: string)
    requires p in PathsOf(Matched(paths, t, MatchRule(session, root)))
    ensures exists e :: e in t && e.path == p && e.sessionId == session && Requested(e, paths, MatchRule(session, root))
  {
    MatchedMembers(paths, t, MatchRule(session, root));
    var e :| e in Matched(paths, t, MatchRule(session, root)) && e.path == p;
    RequestedIsCallers(e, paths, session, root);
  }

  /** The same uploaded file named by its registry path, by its URL and by
      its bare file name. */
  lemma SameFileNames()
    ensures Basename("static/uploads/u_original.png") == "u_original.png"
    ensures Basename("/static/uploads/u_original.png") == "u_original.png"
    ensures Basename("u_original.png") == "u_original.png"
  {
    BasenameUnique("static/uploads/u_original.png", "u_original.png");
    BasenameUnique("/static/uploads/u_original.png", "u_original.png");
    BasenameUnique("u_original.png", "u_original.png");
  }

  /** The source's rule on the example: the caller's entry is reached both
      by its URL and by its bare file name. */
  lemma ExampleReachedByOwner(root: string)
    ensures var e := Record("static/uploads/u_original.png", 0, "A");
            && MatchRule("A", root)(e, "/static/uploads/u_original.png")
            && MatchRule("A", root)(e, "u_original.png")
  {
    var e := Record("static/uploads/u_original.png", 0, "A");
    SameFileNames();
    MatchesIsBasenameMatch(e, "/static/uploads/u_original.png", "A", root);
    MatchesIsBasenameMatch(e, "u_original.png", "A", root);
  }

  /** A one-entry table scanned for two requested paths, in terms of what
      each path's test says of the entry. */
  lemma TwoRequestsOneEntry(e: Record, p: string, q: string, rule: Rule)
    ensures Matched([p, q], [e], rule) == (if rule(e, p) then [e] else []) + (if rule(e, q) then [e] else [])
    ensures Unselected([e], [p, q], rule) == if rule(e, p) || rule(e, q) then [] else [e]
  {
    assert [e][..0] == [] && [p, q][..1] == [p] && [p][..0] == [];
    assert Hits([e], p, rule) == Hits([], p, rule) + if rule(e, p) then [e] else [];
    assert Hits([e], q, rule) == Hits([], q, rule) + if rule(e, q) then [e] else [];
    assert Matched([p], [e], rule) == Matched([], [e], rule) + Hits([e], p, rule);
    assert Requested(e, [p], rule) == (Requested(e, [], rule) || rule(e, p));
  }

  /** The reported count is one per (requested path, reached entry) pair, so
      it can exceed the number of entries removed: one entry requested by
      its URL and by its bare file name counts twice, and the same request
      from another session reaches nothing. */
  lemma CountExceedsRemoved(root: string)
    ensures var e := Record("static/uploads/u_original.png", 0, "A");
            var paths := ["/static/uploads/u_original.png", "u_original.png"];
            && |Matched(paths, [e], MatchRule("A", root))| == 2
            && Unselected([e], paths, MatchRule("A", root)) == []
            && Matched(paths, [e], MatchRule("B", root)) == []
            && Unselected([e], paths, MatchRule("B", root)) == [e]
  {
    var e := Record("static/uploads/u_original.png", 0, "A");
    ExampleReachedByOwner(root);
    assert !MatchRule("B", root)(e, "/static/uploads/u_original.png");
    assert !MatchRule("B", root)(e, "u_original.png");
    TwoRequestsOneEntry(e, "/static/uploads/u_original.png", "u_original.png", MatchRule("A", root));
    TwoRequestsOneEntry(e, "/static/uploads/u_original.png", "u_original.png", MatchRule("B", root));
  }
}
