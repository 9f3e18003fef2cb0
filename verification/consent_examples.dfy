/**
  Worked cases of the consent-section transform: merging under one label,
  empty segments, and keys with too few or too many segments.
 */
module ConsentExamples {
  import opened ConsentSections

  /**
    Two keys with one label merge into one inner map:
    `{"x.a.text": t, "x.a.more": m}` gives `a -> {text: t, more: m}`.
   */
  lemma SameLabelMerges(p: string, l: string, c1: string, c2: string, v1: string, v2: string)
    requires '.' !in p && '.' !in l && '.' !in c1 && '.' !in c2
    requires c1 != c2
    ensures Unflatten([(p + "." + l + "." + c1, v1), (p + "." + l + "." + c2, v2)])
      == Ok(map[l := map[c1 := v1, c2 := v2]])
  {
    var k1, k2 := p + "." + l + "." + c1, p + "." + l + "." + c2;
    ParseKeyCompose(p, l, c1);
    ParseKeyCompose(p, l, c2);
    UnflattenSnoc([], k1, v1);
    UnflattenSnoc([(k1, v1)], k2, v2);
    assert [(k1, v1)] + [(k2, v2)] == [(k1, v1), (k2, v2)];
  }

  /**
    Pairs for two labels are grouped under each label: the submission
    `{"consent_section.welcome.text": "Hello", "consent_section.welcome.more":
    "Read more", "consent_section.risks.text": "Risk info"}` gives
    `{"welcome": {"text": "Hello", "more": "Read more"}, "risks": {"text":
    "Risk info"}}`.
   */
  lemma TwoLabelsGrouped(p: string, l1: string, c1: string, c2: string, l2: string, c3: string,
                         v1: string, v2: string, v3: string)
    requires '.' !in p && '.' !in l1 && '.' !in c1 && '.' !in c2 && '.' !in l2 && '.' !in c3
    requires c1 != c2 && l1 != l2
    ensures Unflatten([
        (p + "." + l1 + "." + c1, v1),
        (p + "." + l1 + "." + c2, v2),
        (p + "." + l2 + "." + c3, v3)])
      == Ok(map[l1 := map[c1 := v1, c2 := v2], l2 := map[c3 := v3]])
  {
    var a, b, x := (p + "." + l1 + "." + c1, v1), (p + "." + l1 + "." + c2, v2), (p + "." + l2 + "." + c3, v3);
    SameLabelMerges(p, l1, c1, c2, v1, v2);
    ParseKeyCompose(p, l2, c3);
    UnflattenSnoc([a, b], x.0, x.1);
    assert [a, b] + [x] == [a, b, x];
  }

  /** Segments may be empty: `"a..b"` has label `""` and content type `"b"`. */
  lemma EmptySegmentsAccepted()
    ensures ParseKey("a..b") == Some(("", "b"))
    ensures Unflatten([("a..b", "x")]) == Ok(map["" := map["b" := "x"]])
  {
    assert "a..b" == "a" + "." + "" + "." + "b";
    ParseKeyCompose("a", "", "b");
    UnflattenSnoc([], "a..b", "x");
  }

  /** A key with one dot (two segments) is rejected, e.g. `"bad.key"`. */
  lemma TwoSegmentKeyRejected(p: string, l: string, v: string)
    requires '.' !in p && '.' !in l
    ensures Unflatten([(p + "." + l, v)]) == MalformedKey(p + "." + l)
  {
  }

  /** A key with three dots (four segments) is rejected, e.g. `"a.b.c.d"`. */
  lemma FourSegmentKeyRejected(p: string, l: string, c: string, d: string, v: string)
    requires '.' !in p && '.' !in l && '.' !in c && '.' !in d
    ensures Unflatten([(p + "." + l + "." + c + "." + d, v)]) == MalformedKey(p + "." + l + "." + c + "." + d)
  {
  }

  /**
    A malformed key anywhere rejects the whole submission, even after
    well-formed keys have been grouped.
   */
  lemma MalformedKeyDiscardsEarlierWork(p: string, l: string, c: string, v: string, bad: string, w: string)
    requires '.' !in p && '.' !in l && '.' !in c
    requires multiset(bad)['.'] != 2
    ensures Unflatten([(p + "." + l + "." + c, v), (bad, w)]) == MalformedKey(bad)
  {
    var k := p + "." + l + "." + c;
    ParseKeyCompose(p, l, c);
    UnflattenFirstMalformed([(k, v), (bad, w)], 1);
  }
}
