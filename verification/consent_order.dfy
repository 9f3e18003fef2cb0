/**
  The submitted consent values arrive as a dict, and the transform walks the
  dict in its iteration order. These lemmas say when that order matters.
  Whether the transform fails never depends on it. When it succeeds, the
  grouping is the same for every iteration order unless two keys differ
  only in their discarded first segment, and then the pair visited last
  wins. When it fails, the loop raises at the first malformed key in the
  order visited, and `MalformedKey` records that key.
 */
module ConsentOrder {
  import opened ConsentSections

  /**
    `entries` lists the items of the dict `m` once each, in some iteration
    order.
   */
  ghost predicate Enumerates(entries: seq<(string, string)>, m: map<string, string>) {
    && (forall i, j :: 0 <= i < j < |entries| ==> entries[i].0 != entries[j].0)
    && (forall i :: 0 <= i < |entries| ==> entries[i].0 in m && m[entries[i].0] == entries[i].1)
    && (forall k :: k in m ==> exists i :: 0 <= i < |entries| && entries[i].0 == k)
  }

  /** No two keys of `m` split to the same (label, content type). */
  ghost predicate CollisionFree(m: map<string, string>) {
    forall k1, k2 :: k1 in m && k2 in m && ParseKey(k1).Some? && ParseKey(k1) == ParseKey(k2) ==> k1 == k2
  }

  /** Whether the transform fails does not depend on the iteration order. */
  lemma OutcomeIndependentOfOrder(m: map<string, string>, e1: seq<(string, string)>, e2: seq<(string, string)>)
    requires Enumerates(e1, m) && Enumerates(e2, m)
    ensures Unflatten(e1).Ok? <==> Unflatten(e2).Ok?
  {
    UnflattenOkIffWellFormed(e1);
    UnflattenOkIffWellFormed(e2);
    if WellFormed(e1) {
      forall i | 0 <= i < |e2|
        ensures ParseKey(e2[i].0).Some?
      {
        var j :| 0 <= j < |e1| && e1[j].0 == e2[i].0;
      }
    }
    if WellFormed(e2) {
      forall i | 0 <= i < |e1|
        ensures ParseKey(e1[i].0).Some?
      {
        var j :| 0 <= j < |e2| && e2[j].0 == e1[i].0;
      }
    }
  }

  /** One (label, content type) of the result, read off the dict itself. */
  lemma {:induction false} EntryFromDict(m: map<string, string>, e: seq<(string, string)>, r: Nested, l: string, c: string)
    requires Enumerates(e, m) && Unflatten(e) == Ok(r)
    ensures (l in r && c in r[l]) <==> exists k :: k in m && ParseKey(k) == Some((l, c))
    ensures l in r && c in r[l] ==> exists k :: k in m && ParseKey(k) == Some((l, c)) && m[k] == r[l][c]
  {
    UnflattenMentions(e, r, l, c);
    if exists k :: k in m && ParseKey(k) == Some((l, c)) {
      var k :| k in m && ParseKey(k) == Some((l, c));
      var i :| 0 <= i < |e| && e[i].0 == k;
      assert Mentions(e, l, c);
    }
    if l in r && c in r[l] {
      UnflattenLastWrite(e, r, l, c);
      var i :| 0 <= i < |e| && ParseKey(e[i].0) == Some((l, c)) && e[i].1 == r[l][c] &&
        forall j :: i < j < |e| ==> ParseKey(e[j].0) != Some((l, c));
      assert e[i].0 in m && m[e[i].0] == r[l][c];
    }
  }

  /**
    When no two keys collide on (label, content type), every iteration order
    of the dict gives the same grouping.
   */
  lemma ResultIndependentOfOrder(m: map<string, string>, e1: seq<(string, string)>, e2: seq<(string, string)>)
    requires Enumerates(e1, m) && Enumerates(e2, m) && CollisionFree(m)
    requires Unflatten(e1).Ok?
    ensures Unflatten(e1) == Unflatten(e2)
  {
    OutcomeIndependentOfOrder(m, e1, e2);
    var r1, r2 := Unflatten(e1).sections, Unflatten(e2).sections;
    forall l, c
      ensures (l in r1 && c in r1[l]) <==> (l in r2 && c in r2[l])
      ensures l in r1 && c in r1[l] ==> r1[l][c] == r2[l][c]
    {
      EntryFromDict(m, e1, r1, l, c);
      EntryFromDict(m, e2, r2, l, c);
      if l in r1 && c in r1[l] {
        var k1 :| k1 in m && ParseKey(k1) == Some((l, c)) && m[k1] == r1[l][c];
        var k2 :| k2 in m && ParseKey(k2) == Some((l, c)) && m[k2] == r2[l][c];
        assert k1 == k2;
      }
    }
    forall l | l in r1
      ensures l in r2
    {
      UnflattenSectionsNonEmpty(e1, r1, l);
      var c :| c in r1[l];
    }
    forall l | l in r2
      ensures l in r1
    {
      UnflattenSectionsNonEmpty(e2, r2, l);
      var c :| c in r2[l];
    }
    assert r1.Keys == r2.Keys;
    forall l | l in r1
      ensures r1[l] == r2[l]
    {
      assert r1[l].Keys == r2[l].Keys;
    }
  }

  /** A two-item dict is listed by its two items in either order. */
  lemma EnumeratesTwo(m: map<string, string>, k1: string, v1: string, k2: string, v2: string)
    requires k1 != k2 && m == map[k1 := v1, k2 := v2]
    ensures Enumerates([(k1, v1), (k2, v2)], m)
  {
    var e := [(k1, v1), (k2, v2)];
    forall k | k in m
      ensures exists i :: 0 <= i < |e| && e[i].0 == k
    {
      if k == k1 {
        assert e[0].0 == k;
      } else {
        assert e[1].0 == k;
      }
    }
  }

  /** Of two keys that share label and content type, the later value wins. */
  lemma LaterCollidingKeyWins(p1: string, p2: string, l: string, c: string, v1: string, v2: string)
    requires '.' !in p1 && '.' !in p2 && '.' !in l && '.' !in c
    ensures Unflatten([(p1 + "." + l + "." + c, v1), (p2 + "." + l + "." + c, v2)]) == Ok(map[l := map[c := v2]])
  {
    var k1, k2 := p1 + "." + l + "." + c, p2 + "." + l + "." + c;
    ParseKeyCompose(p1, l, c);
    ParseKeyCompose(p2, l, c);
    UnflattenSnoc([], k1, v1);
    UnflattenSnoc([(k1, v1)], k2, v2);
    assert [(k1, v1)] + [(k2, v2)] == [(k1, v1), (k2, v2)];
    assert map[c := v1][c := v2] == map[c := v2];
  }

  /**
    Two keys that differ only in the discarded first segment collide, so
    with different values the grouping depends on the iteration order: the dict
    `{"x.a.text": "1", "y.a.text": "2"}` gives `a -> {text: "2"}` when
    `"y.a.text"` is visited last and `a -> {text: "1"}` otherwise.
   */
  lemma CollidingPrefixesDependOnOrder(p1: string, p2: string, l: string, c: string, v1: string, v2: string)
    requires '.' !in p1 && '.' !in p2 && '.' !in l && '.' !in c
    requires p1 != p2
    ensures var k1, k2 := p1 + "." + l + "." + c, p2 + "." + l + "." + c;
      var m := map[k1 := v1, k2 := v2];
      && Enumerates([(k1, v1), (k2, v2)], m) && Enumerates([(k2, v2), (k1, v1)], m)
      && Unflatten([(k1, v1), (k2, v2)]) == Ok(map[l := map[c := v2]])
      && Unflatten([(k2, v2), (k1, v1)]) == Ok(map[l := map[c := v1]])
    ensures var k1, k2 := p1 + "." + l + "." + c, p2 + "." + l + "." + c;
      v1 != v2 ==> Unflatten([(k1, v1), (k2, v2)]) != Unflatten([(k2, v2), (k1, v1)])
  {
    var k1, k2 := p1 + "." + l + "." + c, p2 + "." + l + "." + c;
    assert k1 != k2 by {
      var t := l + "." + c;
      assert k1 == p1 + ['.'] + t && k2 == p2 + ['.'] + t;
      PyStr.SplitAfterPiece(p1, '.', t);
      PyStr.SplitAfterPiece(p2, '.', t);
      assert PyStr.Split(k1, '.')[0] == p1 != p2 == PyStr.Split(k2, '.')[0];
    }
    var m := map[k1 := v1, k2 := v2];
    EnumeratesTwo(m, k1, v1, k2, v2);
    EnumeratesTwo(m, k2, v2, k1, v1);
    LaterCollidingKeyWins(p1, p2, l, c, v1, v2);
    LaterCollidingKeyWins(p2, p1, l, c, v2, v1);
    assert map[l := map[c := v2]][l][c] == v2 && map[l := map[c := v1]][l][c] == v1;
  }
}
