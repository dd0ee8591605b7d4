/**
 The header analysis of the HTTP security checker: for every name on a fixed
 checklist of security headers, classify the response's header as present,
 missing, invalid, or (for HSTS) present but weak.

 Headers are a map from header name to value whose names the caller has
 already lower-cased; the findings are a map from checklist name to status.
 */
module SecurityHeaders {
  import opened Strings

  type Headers = map<string, string>
  type Findings = map<string, string>

  const StrictTransportSecurity: string := "strict-transport-security"
  const XFrameOptions: string := "x-frame-options"
  const XContentTypeOptions: string := "x-content-type-options"

  /** The checklist, in declaration order. */
  const SecHeaders: seq<string> := [
    StrictTransportSecurity,
    "content-security-policy",
    XFrameOptions,
    XContentTypeOptions,
    "referrer-policy",
    "permissions-policy",
    "x-xss-protection",
    "expect-ct",
    "public-key-pins"
  ]

  // The statuses a finding can carry.
  const Present: string := "present"
  const Missing: string := "missing"
  const Invalid: string := "invalid"
  const NoMaxAge: string := "present (no max-age)"
  const Disabled: string := "present (disabled)"

  /** The closed set of statuses. */
  const Statuses: set<string> := {Present, Missing, Invalid, NoMaxAge, Disabled}

  /** The checklist names whose value is validated; the others are checked for presence only. */
  const Validated: set<string> := {StrictTransportSecurity, XFrameOptions, XContentTypeOptions}

  /**
   `headers.get(name, "")`: the header's value, or the empty string when it
   is absent, so an absent header and an empty value look the same.
   */
  function Get(headers: Headers, name: string): (v: string)
    ensures v == "" <==> name !in headers || headers[name] == ""
    ensures v != "" ==> name in headers
  {
    if name in headers then headers[name] else ""
  }

  /** The presence check alone: "present" when the key exists, "missing" otherwise. */
  ghost function PresenceStatus(headers: Headers, name: string): string
  {
    if name in headers then Present else Missing
  }

  /** x-content-type-options: its value, lower-cased and not trimmed, must be "nosniff". */
  ghost function ContentTypeStatus(headers: Headers): string
  {
    var v := Get(headers, XContentTypeOptions);
    if v == "" then Missing
    else if Lower(v) == "nosniff" then Present
    else Invalid
  }

  /** x-frame-options: its value, lower-cased, must be "deny" or "sameorigin". */
  ghost function FrameStatus(headers: Headers): string
  {
    var v := Get(headers, XFrameOptions);
    if v == "" then Missing
    else if Lower(v) in {"deny", "sameorigin"} then Present
    else Invalid
  }

  /** strict-transport-security: absent, empty, without "max-age", with "max-age=0", or otherwise present. */
  ghost function HstsStatus(headers: Headers): string
  {
    if StrictTransportSecurity !in headers then Missing
    else
      var v := headers[StrictTransportSecurity];
      if v == "" then Present
      else if !Contains(Lower(v), "max-age") then NoMaxAge
      else if Contains(Lower(v), "max-age=0") then Disabled
      else Present
  }

  /** The status one checklist header should get: a decision table per header. */
  ghost function Status(headers: Headers, name: string): string
  {
    if name == XContentTypeOptions then ContentTypeStatus(headers)
    else if name == XFrameOptions then FrameStatus(headers)
    else if name == StrictTransportSecurity then HstsStatus(headers)
    else PresenceStatus(headers, name)
  }

  /** The findings the analysis should produce: one status per checklist name. */
  ghost function Expected(headers: Headers): Findings
  {
    map name | name in SecHeaders :: Status(headers, name)
  }

  /** The first pass: every checklist name is "present" if its key exists, "missing" otherwise. */
  method PresencePass(headers: Headers) returns (report: Findings)
    ensures report.Keys == set name | name in SecHeaders
    ensures forall name :: name in report ==> report[name] == PresenceStatus(headers, name)
  {
    report := map[];
    for i := 0 to |SecHeaders|
      invariant report.Keys == set name | name in SecHeaders[..i]
      invariant forall name :: name in report ==> report[name] == PresenceStatus(headers, name)
    {
      var h := SecHeaders[i];
      assert SecHeaders[..i + 1] == SecHeaders[..i] + [h];
      if h in headers {
        report := report[h := Present];
      } else {
        report := report[h := Missing];
      }
    }
    assert SecHeaders[..|SecHeaders|] == SecHeaders;
  }

  /**
   The analysis: the presence pass over the checklist, then value checks that
   overwrite the findings of x-content-type-options, x-frame-options and
   strict-transport-security.
   */
  method Analyze(headers: Headers) returns (report: Findings)
    ensures report == Expected(headers)
  {
    report := PresencePass(headers);
    ghost var presence := report;

    var xContentType := Lower(Get(headers, XContentTypeOptions));
    if xContentType != "" && xContentType != "nosniff" {
      report := report[XContentTypeOptions := Invalid];
    } else if xContentType == "" {
      report := report[XContentTypeOptions := Missing];
    } else {
      UpdateUnchanged(report, XContentTypeOptions);
    }
    ghost var contentTypeStatus := report[XContentTypeOptions];
    assert contentTypeStatus == ContentTypeStatus(headers);
    ghost var checkedContentType := report;

    var xFrame := Lower(Get(headers, XFrameOptions));
    if xFrame != "" && xFrame !in {"deny", "sameorigin"} {
      report := report[XFrameOptions := Invalid];
    } else if xFrame == "" {
      report := report[XFrameOptions := Missing];
    } else {
      UpdateUnchanged(report, XFrameOptions);
    }
    ghost var frameStatus := report[XFrameOptions];
    assert frameStatus == FrameStatus(headers);
    ghost var checkedFrame := report;

    var hsts := Get(headers, StrictTransportSecurity);
    if hsts != "" {
      if !Contains(Lower(hsts), "max-age") {
        report := report[StrictTransportSecurity := NoMaxAge];
      } else if Contains(Lower(hsts), "max-age=0") {
        report := report[StrictTransportSecurity := Disabled];
      } else {
        UpdateUnchanged(report, StrictTransportSecurity);
      }
    } else {
      UpdateUnchanged(report, StrictTransportSecurity);
    }
    ghost var hstsStatus := report[StrictTransportSecurity];
    assert hstsStatus == HstsStatus(headers);

    FindingsAssembled(headers, presence, contentTypeStatus, frameStatus, hstsStatus);
  }

  /** Writing back the value a key already has leaves a map as it was. */
  lemma UpdateUnchanged(m: Findings, k: string)
    requires k in m
    ensures m[k := m[k]] == m
  {
  }

  /**
   Findings that cover the checklist, keep the presence status on the
   unvalidated names and have the decision-table status on the three
   validated names are exactly the expected findings.
   */
  lemma FindingsAssembled(headers: Headers, presence: Findings, contentType: string, frame: string, hsts: string)
    requires presence.Keys == set name | name in SecHeaders
    requires forall name :: name in presence ==> presence[name] == PresenceStatus(headers, name)
    requires contentType == ContentTypeStatus(headers)
    requires frame == FrameStatus(headers)
    requires hsts == HstsStatus(headers)
    ensures presence[XContentTypeOptions := contentType][XFrameOptions := frame][StrictTransportSecurity := hsts]
            == Expected(headers)
  {
    var report := presence[XContentTypeOptions := contentType][XFrameOptions := frame][StrictTransportSecurity := hsts];
    ExpectedEntries(headers);
    forall name | name in report
      ensures report[name] == Expected(headers)[name]
    {
      if name !in Validated {
        assert report[name] == presence[name];
      }
    }
    SameEntries(report, Expected(headers));
  }

  /** The expected findings, entry by entry: the three validated names, then all the others. */
  lemma ExpectedEntries(headers: Headers)
    ensures Expected(headers).Keys == set name | name in SecHeaders
    ensures Validated <= Expected(headers).Keys
    ensures Expected(headers)[XContentTypeOptions] == ContentTypeStatus(headers)
    ensures Expected(headers)[XFrameOptions] == FrameStatus(headers)
    ensures Expected(headers)[StrictTransportSecurity] == HstsStatus(headers)
    ensures forall name :: name in Expected(headers) && name !in Validated ==>
              Expected(headers)[name] == PresenceStatus(headers, name)
  {
    assert SecHeaders[0] == StrictTransportSecurity;
    assert SecHeaders[2] == XFrameOptions;
    assert SecHeaders[3] == XContentTypeOptions;
  }

  /** Two maps with the same keys and the same value at every key are equal. */
  lemma SameEntries(m1: Findings, m2: Findings)
    requires m1.Keys == m2.Keys
    requires forall k :: k in m1 ==> m1[k] == m2[k]
    ensures m1 == m2
  {
  }

  /** The findings cover exactly the checklist, one entry per name: nine in all. */
  lemma FindingsKeys(headers: Headers)
    ensures Expected(headers).Keys == set name | name in SecHeaders
    ensures |Expected(headers)| == |SecHeaders| == 9
  {
    ChecklistDistinct();
    DistinctCount(SecHeaders);
    assert Expected(headers).Keys == set name | name in SecHeaders;
  }

  /** No name appears twice on the checklist. */
  lemma ChecklistDistinct()
    ensures forall i, j :: 0 <= i < j < |SecHeaders| ==> SecHeaders[i] != SecHeaders[j]
  {
  }

  /** A sequence without repetitions has as many distinct elements as it has positions. */
  lemma {:induction false} DistinctCount(s: seq<string>)
    requires forall i, j :: 0 <= i < j < |s| ==> s[i] != s[j]
    ensures |set x | x in s| == |s|
  {
    if s != [] {
      DistinctCount(s[1..]);
      assert (set x | x in s) == {s[0]} + (set x | x in s[1..]);
      assert s[0] !in s[1..];
    }
  }

  /** Every status is one of the five the analysis assigns; "missing/invalid" never occurs. */
  lemma FindingsStatuses(headers: Headers)
    ensures forall name :: name in Expected(headers) ==> Expected(headers)[name] in Statuses
    ensures "missing/invalid" !in Expected(headers).Values
  {
  }

  /** With no headers at all, every checklist entry is missing. */
  lemma EmptyHeadersAllMissing()
    ensures forall name :: name in SecHeaders ==> Expected(map[])[name] == Missing
  {
  }

  /** Headers off the validated list are "present" exactly when their key exists, whatever the value. */
  lemma PresenceOnlyHeaders(headers: Headers, name: string)
    requires name in SecHeaders && name !in Validated
    ensures Expected(headers)[name] == Present <==> name in headers
    ensures Expected(headers)[name] == Missing <==> name !in headers
  {
  }

  /** x-content-type-options: exactly "nosniff" after lower-casing, no trimming. */
  lemma ContentTypeOptionsRule(headers: Headers)
    ensures var r := Expected(headers)[XContentTypeOptions];
      && (r == Present <==> XContentTypeOptions in headers && Lower(headers[XContentTypeOptions]) == "nosniff")
      && (r == Missing <==> XContentTypeOptions !in headers || headers[XContentTypeOptions] == "")
      && (r == Invalid <==> XContentTypeOptions in headers && headers[XContentTypeOptions] != ""
                             && Lower(headers[XContentTypeOptions]) != "nosniff")
  {
  }

  /** x-frame-options: "deny" or "sameorigin" after lower-casing; anything else non-empty is invalid. */
  lemma FrameOptionsRule(headers: Headers)
    ensures var r := Expected(headers)[XFrameOptions];
      && (r == Present <==> XFrameOptions in headers && Lower(headers[XFrameOptions]) in {"deny", "sameorigin"})
      && (r == Missing <==> XFrameOptions !in headers || headers[XFrameOptions] == "")
      && (r == Invalid <==> XFrameOptions in headers && headers[XFrameOptions] != ""
                             && Lower(headers[XFrameOptions]) !in {"deny", "sameorigin"})
  {
  }

  /** strict-transport-security: the five outcomes, with "max-age" tested before "max-age=0". */
  lemma HstsRule(headers: Headers)
    ensures var r := Expected(headers)[StrictTransportSecurity];
      && (StrictTransportSecurity !in headers ==> r == Missing)
      && (StrictTransportSecurity in headers ==>
            var v := headers[StrictTransportSecurity];
            && (v == "" ==> r == Present)
            && (v != "" && !Contains(Lower(v), "max-age") ==> r == NoMaxAge)
            && (v != "" && Contains(Lower(v), "max-age") && Contains(Lower(v), "max-age=0") ==> r == Disabled)
            && (v != "" && Contains(Lower(v), "max-age") && !Contains(Lower(v), "max-age=0") ==> r == Present))
  {
  }

  /**
   A value containing "max-age=0" (in any case) also contains "max-age", so
   the earlier "no max-age" test never hides the "disabled" outcome.
   */
  lemma HstsZeroIsDisabled(headers: Headers)
    requires StrictTransportSecurity in headers
    requires Contains(Lower(headers[StrictTransportSecurity]), "max-age=0")
    ensures Expected(headers)[StrictTransportSecurity] == Disabled
  {
    assert "max-age=0" == "max-age" + "=0";
    ContainsPrefix(Lower(headers[StrictTransportSecurity]), "max-age", "=0");
  }

  /** Two header maps that agree on the checklist names give the same findings. */
  lemma OnlyChecklistMatters(h1: Headers, h2: Headers)
    requires forall name :: name in SecHeaders ==> (name in h1 <==> name in h2)
    requires forall name :: name in SecHeaders && name in h1 ==> h1[name] == h2[name]
    ensures Expected(h1) == Expected(h2)
  {
    forall name | name in SecHeaders
      ensures Status(h1, name) == Status(h2, name)
    {
      assert Get(h1, name) == Get(h2, name);
    }
  }

  /** Keys outside the checklist can be dropped without changing the findings. */
  lemma ExtraKeysIgnored(headers: Headers, extra: set<string>)
    requires forall name :: name in extra ==> name !in SecHeaders
    ensures Expected(headers - extra) == Expected(headers)
  {
    OnlyChecklistMatters(headers - extra, headers);
  }

  /** A non-empty HSTS value without a '-' (say "includeSubDomains" or "preload") has no max-age. */
  lemma HstsWithoutDashHasNoMaxAge(headers: Headers)
    requires StrictTransportSecurity in headers && headers[StrictTransportSecurity] != ""
    requires '-' !in headers[StrictTransportSecurity]
    ensures Expected(headers)[StrictTransportSecurity] == NoMaxAge
  {
    var v := headers[StrictTransportSecurity];
    LowerAbsent(v, '-');
    AbsentCharNotContained(Lower(v), "max-age", '-');
    ExpectedEntries(headers);
  }

  /** "DENY" is accepted: the comparison is case-insensitive. */
  lemma FrameDenyUpperCase()
    ensures Expected(map[XFrameOptions := "DENY"])[XFrameOptions] == Present
  {
    assert Lower("DENY") == "deny";
    ExpectedEntries(map[XFrameOptions := "DENY"]);
  }

  /** "allow-from ..." is not one of the accepted directives. */
  lemma FrameAllowFrom()
    ensures Expected(map[XFrameOptions := "allow-from https://example.com"])[XFrameOptions] == Invalid
  {
    ExpectedEntries(map[XFrameOptions := "allow-from https://example.com"]);
  }

  /** "nosniff" is accepted; "sniff" and " nosniff" (no trimming) are not. */
  lemma ContentTypeExamples()
    ensures Expected(map[XContentTypeOptions := "nosniff"])[XContentTypeOptions] == Present
    ensures Expected(map[XContentTypeOptions := "sniff"])[XContentTypeOptions] == Invalid
    ensures Expected(map[XContentTypeOptions := " nosniff"])[XContentTypeOptions] == Invalid
  {
    ExpectedEntries(map[XContentTypeOptions := "nosniff"]);
    ExpectedEntries(map[XContentTypeOptions := "sniff"]);
    ExpectedEntries(map[XContentTypeOptions := " nosniff"]);
  }

  /** "includeSubDomains" alone carries no max-age. */
  lemma HstsNoMaxAgeExample()
    ensures Expected(map[StrictTransportSecurity := "includeSubDomains"])[StrictTransportSecurity] == NoMaxAge
  {
    HstsWithoutDashHasNoMaxAge(map[StrictTransportSecurity := "includeSubDomains"]);
  }

  /** "max-age=0" switches HSTS off. */
  lemma HstsDisabledExample()
    ensures Expected(map[StrictTransportSecurity := "max-age=0"])[StrictTransportSecurity] == Disabled
  {
    var headers := map[StrictTransportSecurity := "max-age=0"];
    LowerIdentity("max-age=0");
    OccursImpliesContains("max-age=0", "max-age=0", 0);
    HstsZeroIsDisabled(headers);
  }

  /** "max-age=31536000" contains "max-age" but not "max-age=0". */
  lemma OneYearMaxAge(v: string)
    requires v == "max-age=31536000"
    ensures Contains(v, "max-age") && !Contains(v, "max-age=0")
  {
    assert "max-age" <= v;
    assert 'm' !in v[1..] by {
      assert v[1..] == "ax-age=31536000";
    }
    assert v[8] != "max-age=0"[8];
    NotContainedPastStart(v, "max-age=0");
  }

  /** A one-year max-age is a plain "present". */
  lemma HstsOneYearPresent(headers: Headers)
    requires StrictTransportSecurity in headers && headers[StrictTransportSecurity] == "max-age=31536000"
    ensures Expected(headers)[StrictTransportSecurity] == Present
  {
    var v := headers[StrictTransportSecurity];
    LowerIdentity(v);
    OneYearMaxAge(v);
    ExpectedEntries(headers);
  }

  /** "SAMEORIGIN" is accepted for x-frame-options. */
  lemma FrameSameOriginPresent(headers: Headers)
    requires XFrameOptions in headers && headers[XFrameOptions] == "SAMEORIGIN"
    ensures Expected(headers)[XFrameOptions] == Present
  {
    SameOriginLower(headers[XFrameOptions]);
    ExpectedEntries(headers);
  }

  /** Lower-casing "SAMEORIGIN" gives the accepted directive "sameorigin". */
  lemma SameOriginLower(v: string)
    requires v == "SAMEORIGIN"
    ensures Lower(v) == "sameorigin"
  {
    assert forall i :: 0 <= i < |v| ==> Lower(v)[i] == "sameorigin"[i];
  }

  /** Checklist names other than the keys present, none of them validated, are "missing". */
  lemma OthersMissing(headers: Headers)
    requires headers.Keys <= Validated
    ensures forall name :: name in SecHeaders && name !in Validated ==> Expected(headers)[name] == Missing
  {
    ExpectedEntries(headers);
  }

  /**
   A response with a one-year HSTS policy and "SAMEORIGIN" framing: both are
   present, x-content-type-options is missing, and so is every other
   checklist entry.
   */
  lemma EndToEndExample(headers: Headers)
    requires headers == map[StrictTransportSecurity := "max-age=31536000", XFrameOptions := "SAMEORIGIN"]
    ensures Expected(headers)[StrictTransportSecurity] == Present
    ensures Expected(headers)[XFrameOptions] == Present
    ensures Expected(headers)[XContentTypeOptions] == Missing
    ensures forall name :: name in SecHeaders && name !in Validated ==> Expected(headers)[name] == Missing
  {
    HstsOneYearPresent(headers);
    FrameSameOriginPresent(headers);
    ExpectedEntries(headers);
    OthersMissing(headers);
  }
}
