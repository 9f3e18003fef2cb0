/**
  The form handling of the site-admin pages that is more than a database
  call: splitting the device-settings submission into plain settings and
  consent sections, cleaning a new researcher's username, and reading the
  "is test study" flag of a new study. Request data is given as a map from
  field name to its (first) submitted value.
 */
module AdminForms {
  import opened PyStr
  import opened ConsentSections
  import opened ConsentOrder

  /** The field-name prefix that marks consent-section fields. */
  const ConsentPrefix := "consent_section"

  // ---------------------------------------------------------------------
  // Device settings: plain settings versus consent sections
  // ---------------------------------------------------------------------

  /** `params`: the submitted fields whose name does not start with the prefix. */
  function SettingsFields(values: map<string, string>): (params: map<string, string>)
    ensures forall k :: k in params ==> k in values && params[k] == values[k] && !StartsWith(k, ConsentPrefix)
    ensures forall k :: k in values && !StartsWith(k, ConsentPrefix) ==> k in params
  {
    map k | k in values && !StartsWith(k, ConsentPrefix) :: values[k]
  }

  /** `consent_sections`: the submitted fields whose name starts with the prefix. */
  function ConsentFields(values: map<string, string>): (consent: map<string, string>)
    ensures forall k :: k in consent ==> k in values && consent[k] == values[k] && StartsWith(k, ConsentPrefix)
    ensures forall k :: k in values && StartsWith(k, ConsentPrefix) ==> k in consent
  {
    map k | k in values && StartsWith(k, ConsentPrefix) :: values[k]
  }

  /**
    Every submitted field lands in exactly one of the two maps, chosen by
    its prefix, with its value unchanged.
   */
  lemma PartitionExact(values: map<string, string>)
    ensures SettingsFields(values).Keys !! ConsentFields(values).Keys
    ensures SettingsFields(values) + ConsentFields(values) == values
    ensures forall k :: k in ConsentFields(values) <==> k in values && StartsWith(k, ConsentPrefix)
    ensures forall k :: k in SettingsFields(values) <==> k in values && !StartsWith(k, ConsentPrefix)
  {
  }

  /**
    The partition is the only split with those properties: two maps that
    cover the submission disjointly, prefixed names on one side and the
    rest on the other, are exactly the two comprehensions.
   */
  lemma PartitionUnique(values: map<string, string>, settings: map<string, string>, consent: map<string, string>)
    requires settings.Keys !! consent.Keys && settings + consent == values
    requires forall k :: k in consent ==> StartsWith(k, ConsentPrefix)
    requires forall k :: k in settings ==> !StartsWith(k, ConsentPrefix)
    ensures settings == SettingsFields(values) && consent == ConsentFields(values)
  {
  }

  /**
    Whatever order the consent fields are visited in, their transform
    succeeds exactly when every submitted field whose name
    starts with `consent_section` has exactly two dots; in particular a
    field named just `consent_section` makes the transform fail.
   */
  lemma ConsentSubmissionAccepted(values: map<string, string>, entries: seq<(string, string)>)
    requires Enumerates(entries, ConsentFields(values))
    ensures Unflatten(entries).Ok? <==>
      forall k :: k in values && StartsWith(k, ConsentPrefix) ==> multiset(k)['.'] == 2
  {
    var c := ConsentFields(values);
    UnflattenOkIffWellFormed(entries);
    if WellFormed(entries) {
      forall k | k in values && StartsWith(k, ConsentPrefix)
        ensures multiset(k)['.'] == 2
      {
        assert k in c;
        var i :| 0 <= i < |entries| && entries[i].0 == k;
        assert ParseKey(entries[i].0).Some?;
      }
    }
  }

  // ---------------------------------------------------------------------
  // New researcher: username sanitisation
  // ---------------------------------------------------------------------

  /**
    `''.join(e for e in s if e.isalnum())`: the alphanumeric characters of
    `s`, in order. The result holds only alphanumeric characters.
   */
  function Sanitize(s: string): (r: string)
    ensures forall i :: 0 <= i < |r| ==> IsAlnum(r[i])
    ensures |r| <= |s|
  {
    if |s| == 0 then ""
    else (if IsAlnum(s[0]) then [s[0]] else []) + Sanitize(s[1..])
  }

  /**
    No alphanumeric character is lost: each occurs in the sanitised name as
    often as in the submitted one, and nothing else occurs in it.
   */
  lemma {:induction false} SanitizeKeepsEveryAlnum(s: string)
    ensures forall ch :: IsAlnum(ch) ==> multiset(Sanitize(s))[ch] == multiset(s)[ch]
    ensures forall ch :: !IsAlnum(ch) ==> ch !in Sanitize(s)
  {
    if |s| > 0 {
      SanitizeKeepsEveryAlnum(s[1..]);
      var head := if IsAlnum(s[0]) then [s[0]] else [];
      assert s == [s[0]] + s[1..];
      assert multiset(s) == multiset([s[0]]) + multiset(s[1..]);
      assert multiset(Sanitize(s)) == multiset(head) + multiset(Sanitize(s[1..]));
    }
  }

  /** `a` is `b` with some characters left out, order kept. */
  predicate IsSubsequence(a: string, b: string)
    decreases |b|
  {
    if |a| == 0 then true
    else if |b| == 0 then false
    else if a[0] == b[0] then IsSubsequence(a[1..], b[1..])
    else IsSubsequence(a, b[1..])
  }

  /** The sanitised username keeps the order of the submitted characters. */
  lemma {:induction false} SanitizeIsSubsequence(s: string)
    ensures IsSubsequence(Sanitize(s), s)
  {
    if |s| > 0 {
      SanitizeIsSubsequence(s[1..]);
      if IsAlnum(s[0]) {
        assert Sanitize(s) == [s[0]] + Sanitize(s[1..]);
        assert Sanitize(s)[1..] == Sanitize(s[1..]);
      } else {
        assert Sanitize(s) == Sanitize(s[1..]);
      }
    }
  }

  /** A string of alphanumerics is left as it is. */
  lemma {:induction false} SanitizeKeepsAlnum(s: string)
    requires forall i :: 0 <= i < |s| ==> IsAlnum(s[i])
    ensures Sanitize(s) == s
  {
    if |s| > 0 {
      SanitizeKeepsAlnum(s[1..]);
      assert [s[0]] + s[1..] == s;
    }
  }

  /** Sanitising twice is the same as sanitising once. */
  lemma SanitizeIdempotent(s: string)
    ensures Sanitize(Sanitize(s)) == Sanitize(s)
  {
    SanitizeKeepsAlnum(Sanitize(s));
  }

  /** Sanitising works piece by piece: it distributes over concatenation. */
  lemma {:induction false} SanitizeConcat(a: string, b: string)
    ensures Sanitize(a + b) == Sanitize(a) + Sanitize(b)
  {
    if |a| > 0 {
      SanitizeConcat(a[1..], b);
      var head := if IsAlnum(a[0]) then [a[0]] else [];
      assert (a + b)[0] == a[0] && (a + b)[1..] == a[1..] + b;
      assert Sanitize(a + b) == head + Sanitize(a[1..] + b);
      assert Sanitize(a) == head + Sanitize(a[1..]);
      assert head + (Sanitize(a[1..]) + Sanitize(b)) == (head + Sanitize(a[1..])) + Sanitize(b);
    } else {
      assert a + b == b;
    }
  }

  /**
    The username `create_new_researcher` stores: the sanitised `admin_id`
    field, or the empty name when the field is missing. It keeps every
    alphanumeric character of `admin_id`, in order, and nothing else.
   */
  function NewResearcherUsername(form: map<string, string>): (username: string)
    ensures "admin_id" !in form ==> username == ""
    ensures "admin_id" in form ==> IsSubsequence(username, form["admin_id"])
    ensures "admin_id" in form ==>
      forall ch :: IsAlnum(ch) ==> multiset(username)[ch] == multiset(form["admin_id"])[ch]
    ensures forall i :: 0 <= i < |username| ==> IsAlnum(username[i])
  {
    var adminId := if "admin_id" in form then form["admin_id"] else "";
    SanitizeIsSubsequence(adminId);
    SanitizeKeepsEveryAlnum(adminId);
    Sanitize(adminId)
  }

  // ---------------------------------------------------------------------
  // New study: the is_test flag
  // ---------------------------------------------------------------------

  /**
    `request.form.get('is_test') == 'true'`: a missing field and every
    value other than the exact lower-case `true` read as false.
   */
  function IsTestStudy(form: map<string, string>): (isTest: bool)
    ensures isTest <==> "is_test" in form && form["is_test"] == "true"
  {
    "is_test" in form && form["is_test"] == "true"
  }

  /** Spellings a form might send that do not mark a test study. */
  lemma IsTestOnlyLowercaseTrue(form: map<string, string>)
    requires "is_test" in form
    requires form["is_test"] in {"True", "TRUE", "1", "on", "false", ""}
    ensures !IsTestStudy(form)
  {
  }
}
