/**
  The consent-section transform of the device-settings page: the form sends
  consent text as flat keys `prefix.label.content_type`, and the page
  regroups them into a two-level map `label -> (content_type -> text)`
  before storing it in the study's device settings.

  The submitted dict is given as the sequence of its (key, value) pairs in
  iteration order, so that the order-dependent cases are visible.
 */
module ConsentSections {
  import opened PyStr

  datatype Option<T> = None | Some(value: T)

  /** The grouped consent sections: label -> (content type -> text). */
  type Nested = map<string, map<string, string>>

  /**
    The outcome of the transform: the grouped sections, or the key whose
    `split(".")` did not yield exactly three parts (the tuple unpack raises).
   */
  datatype Result = Ok(sections: Nested) | MalformedKey(key: string)

  /**
    The `_, label, content_type = key.split(".")` step: the label and the
    content type of a well-formed key, `None` where the unpack would raise.
   */
  function ParseKey(key: string): (r: Option<(string, string)>)
    ensures r.Some? <==> multiset(key)['.'] == 2
  {
    SplitCount(key, '.');
    var parts := Split(key, '.');
    if |parts| == 3 then Some((parts[1], parts[2])) else None
  }

  /** A key built from three dot-free segments parses to its last two. */
  lemma ParseKeyCompose(prefix: string, sectionLabel: string, contentType: string)
    requires '.' !in prefix && '.' !in sectionLabel && '.' !in contentType
    ensures ParseKey(prefix + "." + sectionLabel + "." + contentType) == Some((sectionLabel, contentType))
  {
    var parts := [prefix, sectionLabel, contentType];
    assert parts[1..][1..] == [contentType];
    assert Join(parts[1..], '.') == sectionLabel + "." + contentType;
    assert Join(parts, '.') == prefix + "." + sectionLabel + "." + contentType;
    SplitJoin(parts, '.');
  }

  /** Every key that parses is some dot-free prefix, then label and content type. */
  lemma ParseKeyDecompose(key: string, sectionLabel: string, contentType: string)
    requires ParseKey(key) == Some((sectionLabel, contentType))
    ensures '.' !in sectionLabel && '.' !in contentType
    ensures exists prefix :: '.' !in prefix && key == prefix + "." + sectionLabel + "." + contentType
  {
    var parts := Split(key, '.');
    SplitPartsFree(key, '.');
    SplitJoinsBack(key, '.');
    SplitCount(key, '.');
    assert parts[1..][1..] == [contentType];
    assert Join(parts[1..], '.') == sectionLabel + "." + contentType;
    assert key == parts[0] + "." + sectionLabel + "." + contentType;
    assert '.' !in parts[0];
  }

  /**
    `refactored_consent_sections[label][content_type] = content` on a
    `defaultdict(dict)`: the label's inner map is created on first use, an
    existing one gains (or overwrites) one entry, and nothing else changes.
   */
  function Insert(acc: Nested, sectionLabel: string, contentType: string, content: string): (r: Nested)
    ensures r.Keys == acc.Keys + {sectionLabel}
    ensures r[sectionLabel].Keys == (if sectionLabel in acc then acc[sectionLabel].Keys else {}) + {contentType}
    ensures r[sectionLabel][contentType] == content
    ensures forall c :: c in r[sectionLabel] && c != contentType ==> r[sectionLabel][c] == acc[sectionLabel][c]
    ensures forall l :: l in acc && l != sectionLabel ==> r[l] == acc[l]
  {
    var section := if sectionLabel in acc then acc[sectionLabel] else map[];
    acc[sectionLabel := section[contentType := content]]
  }

  /**
    `unflatten_consent_sections` as a left fold over the pairs: the first
    malformed key in iteration order aborts the whole transform.
   */
  function Unflatten(entries: seq<(string, string)>): (r: Result)
    ensures r.MalformedKey? ==>
      ParseKey(r.key).None? && exists i :: 0 <= i < |entries| && entries[i].0 == r.key
  {
    if |entries| == 0 then Ok(map[])
    else
      var last := entries[|entries| - 1];
      match Unflatten(entries[..|entries| - 1])
      case MalformedKey(k) => MalformedKey(k)
      case Ok(acc) =>
        match ParseKey(last.0)
        case None => MalformedKey(last.0)
        case Some(lc) => Ok(Insert(acc, lc.0, lc.1, last.1))
  }

  /**
    `unflatten_consent_sections` as the page runs it: a loop that splits each
    key, drops the first segment and writes the value into the accumulator.
   */
  method UnflattenConsentSections(entries: seq<(string, string)>) returns (r: Result)
    ensures r == Unflatten(entries)
  {
    var acc: Nested := map[];
    var i := 0;
    while i < |entries|
      invariant 0 <= i <= |entries|
      invariant Unflatten(entries[..i]) == Ok(acc)
    {
      var (key, content) := entries[i];
      var parts := Split(key, '.');
      if |parts| != 3 {
        UnflattenOkIffWellFormed(entries[..i]);
        UnflattenFirstMalformed(entries, i);
        return MalformedKey(key);
      }
      var sectionLabel, contentType := parts[1], parts[2];
      var section := if sectionLabel in acc then acc[sectionLabel] else map[];
      acc := acc[sectionLabel := section[contentType := content]];
      assert entries[..i + 1][..i] == entries[..i];
      i := i + 1;
    }
    assert entries[..i] == entries;
    r := Ok(acc);
  }

  /** One more pair folds into the result of the pairs before it. */
  lemma UnflattenSnoc(entries: seq<(string, string)>, key: string, content: string)
    ensures Unflatten(entries + [(key, content)]) ==
      match Unflatten(entries)
      case MalformedKey(k) => MalformedKey(k)
      case Ok(acc) =>
        match ParseKey(key)
        case None => MalformedKey(key)
        case Some(lc) => Ok(Insert(acc, lc.0, lc.1, content))
  {
  }

  // ---------------------------------------------------------------------
  // What the transform promises
  // ---------------------------------------------------------------------

  /** Every key splits into exactly three parts. */
  ghost predicate WellFormed(entries: seq<(string, string)>) {
    forall i :: 0 <= i < |entries| ==> ParseKey(entries[i].0).Some?
  }

  /** Some key of the input splits as `_.label.contentType`. */
  ghost predicate Mentions(entries: seq<(string, string)>, sectionLabel: string, contentType: string) {
    exists i :: 0 <= i < |entries| && ParseKey(entries[i].0) == Some((sectionLabel, contentType))
  }

  /**
    `content` is the value of the last pair whose key splits as
    `_.label.contentType`: later pairs overwrite earlier ones.
   */
  ghost predicate LastWrite(entries: seq<(string, string)>, sectionLabel: string, contentType: string, content: string) {
    exists i :: 0 <= i < |entries| && ParseKey(entries[i].0) == Some((sectionLabel, contentType)) &&
      entries[i].1 == content &&
      forall j :: i < j < |entries| ==> ParseKey(entries[j].0) != Some((sectionLabel, contentType))
  }

  /** The labels of the input's well-formed keys. */
  ghost function Labels(entries: seq<(string, string)>): set<string> {
    set i | 0 <= i < |entries| && ParseKey(entries[i].0).Some? :: ParseKey(entries[i].0).value.0
  }

  /** The empty submission gives the empty grouping. */
  lemma UnflattenEmpty()
    ensures Unflatten([]) == Ok(map[])
  {
  }

  /** The transform succeeds exactly when every key has three parts. */
  lemma {:induction false} UnflattenOkIffWellFormed(entries: seq<(string, string)>)
    ensures Unflatten(entries).Ok? <==> WellFormed(entries)
  {
    if |entries| > 0 {
      var init := entries[..|entries| - 1];
      UnflattenOkIffWellFormed(init);
      assert forall i :: 0 <= i < |init| ==> init[i] == entries[i];
    }
  }

  /**
    A malformed key rejects the whole submission: the loop raises at the
    first malformed key in iteration order, and `MalformedKey` records it.
   */
  lemma {:induction false} UnflattenFirstMalformed(entries: seq<(string, string)>, i: nat)
    requires i < |entries|
    requires ParseKey(entries[i].0).None?
    requires forall j :: 0 <= j < i ==> ParseKey(entries[j].0).Some?
    ensures Unflatten(entries) == MalformedKey(entries[i].0)
  {
    var init := entries[..|entries| - 1];
    if i == |entries| - 1 {
      assert WellFormed(init) by {
        assert forall j :: 0 <= j < |init| ==> init[j] == entries[j];
      }
      UnflattenOkIffWellFormed(init);
    } else {
      assert init[i] == entries[i];
      assert forall j :: 0 <= j < i ==> init[j] == entries[j];
      UnflattenFirstMalformed(init, i);
    }
  }

  /**
    For one (label, content type): it is present in the result exactly when
    some key splits to it.
   */
  lemma {:induction false} UnflattenMentions(entries: seq<(string, string)>, r: Nested, sectionLabel: string, contentType: string)
    requires Unflatten(entries) == Ok(r)
    ensures (sectionLabel in r && contentType in r[sectionLabel]) <==> Mentions(entries, sectionLabel, contentType)
  {
    if |entries| > 0 {
      var n := |entries| - 1;
      var init := entries[..n];
      var acc := Unflatten(init).sections;
      var lc := ParseKey(entries[n].0).value;
      assert r == Insert(acc, lc.0, lc.1, entries[n].1);
      UnflattenMentions(init, acc, sectionLabel, contentType);
      if lc == (sectionLabel, contentType) {
        assert ParseKey(entries[n].0) == Some((sectionLabel, contentType));
      } else {
        if Mentions(entries, sectionLabel, contentType) {
          var i :| 0 <= i < |entries| && ParseKey(entries[i].0) == Some((sectionLabel, contentType));
          assert init[i] == entries[i];
        }
        if Mentions(init, sectionLabel, contentType) {
          var i :| 0 <= i < n && ParseKey(init[i].0) == Some((sectionLabel, contentType));
          assert init[i] == entries[i];
        }
      }
    }
  }

  /**
    For one (label, content type) present in the result: its value is the
    one written by the last pair whose key splits to it.
   */
  lemma {:induction false} UnflattenLastWrite(entries: seq<(string, string)>, r: Nested, sectionLabel: string, contentType: string)
    requires Unflatten(entries) == Ok(r)
    requires sectionLabel in r && contentType in r[sectionLabel]
    ensures LastWrite(entries, sectionLabel, contentType, r[sectionLabel][contentType])
  {
    var n := |entries| - 1;
    var init := entries[..n];
    var acc := Unflatten(init).sections;
    var lc := ParseKey(entries[n].0).value;
    assert r == Insert(acc, lc.0, lc.1, entries[n].1);
    var v := r[sectionLabel][contentType];
    if lc == (sectionLabel, contentType) {
      assert ParseKey(entries[n].0) == Some((sectionLabel, contentType)) && entries[n].1 == v;
    } else {
      assert sectionLabel in acc && contentType in acc[sectionLabel] && acc[sectionLabel][contentType] == v;
      UnflattenLastWrite(init, acc, sectionLabel, contentType);
      LastWriteExtends(entries, sectionLabel, contentType, v);
    }
  }

  /** A last write stays the last one when the next pair writes elsewhere. */
  lemma LastWriteExtends(entries: seq<(string, string)>, sectionLabel: string, contentType: string, content: string)
    requires |entries| > 0
    requires LastWrite(entries[..|entries| - 1], sectionLabel, contentType, content)
    requires ParseKey(entries[|entries| - 1].0) != Some((sectionLabel, contentType))
    ensures LastWrite(entries, sectionLabel, contentType, content)
  {
  }

  /**
    The first segment is thrown away: two submissions whose keys pairwise
    split to the same label and content type, with the same values, give
    the same grouping whatever their prefixes.
   */
  lemma {:induction false} UnflattenIgnoresPrefix(e1: seq<(string, string)>, e2: seq<(string, string)>)
    requires |e1| == |e2|
    requires forall i :: 0 <= i < |e1| ==> ParseKey(e1[i].0) == ParseKey(e2[i].0) && e1[i].1 == e2[i].1
    ensures Unflatten(e1).Ok? <==> Unflatten(e2).Ok?
    ensures Unflatten(e1).Ok? ==> Unflatten(e1) == Unflatten(e2)
  {
    if |e1| > 0 {
      var n := |e1| - 1;
      assert forall i :: 0 <= i < n ==> e1[..n][i] == e1[i] && e2[..n][i] == e2[i];
      UnflattenIgnoresPrefix(e1[..n], e2[..n]);
    }
  }

  /** No label ends up with an empty inner map. */
  lemma {:induction false} UnflattenSectionsNonEmpty(entries: seq<(string, string)>, r: Nested, sectionLabel: string)
    requires Unflatten(entries) == Ok(r)
    requires sectionLabel in r
    ensures exists contentType :: contentType in r[sectionLabel]
  {
    var n := |entries| - 1;
    var acc := Unflatten(entries[..n]).sections;
    var lc := ParseKey(entries[n].0).value;
    if lc.0 == sectionLabel {
      assert lc.1 in r[sectionLabel];
    } else {
      UnflattenSectionsNonEmpty(entries[..n], acc, sectionLabel);
      var c :| c in acc[sectionLabel];
      assert c in r[sectionLabel];
    }
  }

  /**
    The content of a successful transform: every (label, content type) some
    key splits to is present, nothing else is, and each holds the value of
    the last pair that wrote it.
   */
  lemma UnflattenContents(entries: seq<(string, string)>, r: Nested)
    requires Unflatten(entries) == Ok(r)
    ensures forall l, c :: (l in r && c in r[l]) <==> Mentions(entries, l, c)
    ensures forall l, c :: l in r && c in r[l] ==> LastWrite(entries, l, c, r[l][c])
  {
    forall l, c
      ensures (l in r && c in r[l]) <==> Mentions(entries, l, c)
      ensures l in r && c in r[l] ==> LastWrite(entries, l, c, r[l][c])
    {
      UnflattenMentions(entries, r, l, c);
      if l in r && c in r[l] {
        UnflattenLastWrite(entries, r, l, c);
      }
    }
  }

  /** The outer keys of the result are exactly the labels of the input keys. */
  lemma UnflattenLabels(entries: seq<(string, string)>, r: Nested)
    requires Unflatten(entries) == Ok(r)
    ensures r.Keys == Labels(entries)
  {
    forall l | l in r
      ensures l in Labels(entries)
    {
      UnflattenSectionsNonEmpty(entries, r, l);
      var c :| c in r[l];
      UnflattenMentions(entries, r, l, c);
      var i :| 0 <= i < |entries| && ParseKey(entries[i].0) == Some((l, c));
    }
    forall l | l in Labels(entries)
      ensures l in r
    {
      var i :| 0 <= i < |entries| && ParseKey(entries[i].0).Some? && ParseKey(entries[i].0).value.0 == l;
      var c := ParseKey(entries[i].0).value.1;
      assert Mentions(entries, l, c);
      UnflattenMentions(entries, r, l, c);
    }
  }
}
