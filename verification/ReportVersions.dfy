/** Which unit the fixer reads a report's timestamps in: versions in dictionary order, and
    how their texts are taken apart. */
module ReportVersions {
  import opened JsonText
  import opened JsonEncoder
  import opened JsonDecoder
  import opened ReportFixer

  // ------------------------------------------------------------- dictionary order

  /** The first difference decides. */
  predicate Precedes(a: seq<int>, b: seq<int>)
    requires |a| == |b|
  {
    exists k :: 0 <= k < |a| && a[..k] == b[..k] && a[k] < b[k]
  }

  lemma {:induction false} FirstDifference(a: seq<int>, b: seq<int>) returns (k: nat)
    requires |a| == |b| && a != b
    ensures k < |a| && a[..k] == b[..k] && a[k] != b[k]
    decreases |a|
  {
    var n := |a| - 1;
    if a[..n] == b[..n] {
      k := n;
      assert a == a[..n] + [a[n]] && b == b[..n] + [b[n]];
    } else {
      k := FirstDifference(a[..n], b[..n]);
      assert a[..n][..k] == a[..k] && b[..n][..k] == b[..k];
    }
  }

  lemma PrecedesChains(a: seq<int>, b: seq<int>, c: seq<int>)
    requires |a| == |b| == |c| && Precedes(a, b) && Precedes(b, c)
    ensures Precedes(a, c)
  {
    var j :| 0 <= j < |a| && a[..j] == b[..j] && a[j] < b[j];
    var k :| 0 <= k < |b| && b[..k] == c[..k] && b[k] < c[k];
    var m := if j <= k then j else k;
    assert a[..m] == a[..j][..m] == b[..j][..m] == b[..m];
    assert c[..m] == c[..k][..m] == b[..k][..m] == b[..m];
    assert j < k ==> b[j] == b[..k][j] == c[..k][j] == c[j];
    assert k < j ==> a[k] == a[..j][k] == b[..j][k] == b[k];
    assert a[m] < c[m];
  }

  /** A strict total order. */
  lemma PrecedesOrders(a: seq<int>, b: seq<int>, c: seq<int>)
    requires |a| == |b| == |c|
    ensures !Precedes(a, a)
    ensures a == b || Precedes(a, b) || Precedes(b, a)
    ensures Precedes(a, b) && Precedes(b, c) ==> Precedes(a, c)
  {
    if a != b {
      var k := FirstDifference(a, b);
      assert b[..k] == a[..k];
    }
    if Precedes(a, b) && Precedes(b, c) {
      PrecedesChains(a, b, c);
    }
  }

  function Components(v: Version): (cs: seq<int>)
    ensures |cs| == 3
  {
    [v.major, v.minor, v.patch]
  }

  lemma PrecedesThree(a: seq<int>, b: seq<int>)
    requires |a| == |b| == 3
    ensures Precedes(a, b) <==>
            a[0] < b[0] || (a[0] == b[0] && (a[1] < b[1] || (a[1] == b[1] && a[2] < b[2])))
  {
    if Precedes(a, b) {
      var k :| 0 <= k < |a| && a[..k] == b[..k] && a[k] < b[k];
      assert k > 0 ==> a[0] == a[..k][0] == b[..k][0] == b[0];
      assert k > 1 ==> a[1] == a[..k][1] == b[..k][1] == b[1];
    }
    assert a[..0] == b[..0];
    assert a[0] == b[0] ==> a[..1] == b[..1];
    assert a[0] == b[0] && a[1] == b[1] ==> a[..2] == b[..2];
  }

  /** The first version whose timestamps are microseconds. */
  const SINCE: seq<int> := [3, 3, 0]

  /** A timestamp is formatted from microseconds if and only if the version is not before
      3.3.0 in dictionary order; with components below 1000 that is the order of the
      numbers they are the digits of. */
  lemma UnitOfDates(l: Libc, v: Version, n: int)
    ensures DateText(l, v, n) == l.date(!Precedes(Components(v), SINCE), n)
    ensures (forall i :: 0 <= i < 3 ==> 0 <= Components(v)[i] < 1000) ==>
              (Precedes(Components(v), SINCE) <==> v.major * 1000000 + v.minor * 1000 + v.patch < 3003000)
  {
    PrecedesThree(Components(v), SINCE);
    assert v == Version(Components(v)[0], Components(v)[1], Components(v)[2]);
  }

  // ------------------------------------------------------------------ version texts

  function Joined(parts: seq<string>): string {
    if parts == [] then "" else if |parts| == 1 then parts[0] else parts[0] + ("." + Joined(parts[1..]))
  }

  predicate WithoutDots(parts: seq<string>) {
    forall i :: 0 <= i < |parts| ==> '.' !in parts[i]
  }

  function NonEmpty(parts: seq<string>): seq<string> {
    if parts == [] then [] else (if parts[0] == "" then [] else [parts[0]]) + NonEmpty(parts[1..])
  }

  lemma {:induction false} TokenGrows(a: string, rest: string, current: string)
    requires '.' !in a
    ensures Tokens(a + rest, current) == Tokens(rest, current + a)
    decreases |a|
  {
    if a == "" {
      assert a + rest == rest && current + a == current;
    } else {
      assert (a + rest)[0] == a[0] && (a + rest)[1..] == a[1..] + rest;
      TokenGrows(a[1..], rest, current + [a[0]]);
      assert current + [a[0]] + a[1..] == current + a;
    }
  }

  /** Splitting undoes joining, but for empty parts. */
  lemma {:induction false} TokensOfJoined(parts: seq<string>)
    requires WithoutDots(parts)
    ensures Tokens(Joined(parts), "") == NonEmpty(parts)
    decreases |parts|
  {
    if parts != [] {
      var first := parts[0];
      if |parts| == 1 {
        TokenGrows(first, "", "");
        assert first + "" == first && "" + first == first;
        assert parts[1..] == [];
      } else {
        var rest := "." + Joined(parts[1..]);
        TokenGrows(first, rest, "");
        assert "" + first == first && rest[1..] == Joined(parts[1..]);
        TokensOfJoined(parts[1..]);
      }
    }
  }

  /** Every text is a joining of parts without dots. */
  lemma {:induction false} EveryTextIsJoined(s: string) returns (parts: seq<string>)
    ensures parts != [] && WithoutDots(parts) && Joined(parts) == s
    decreases |s|
  {
    if s == "" {
      parts := [""];
    } else {
      var rest := EveryTextIsJoined(s[1..]);
      if s[0] == '.' {
        parts := [""] + rest;
        assert parts[1..] == rest;
        assert s == "" + ("." + s[1..]);
      } else {
        parts := [[s[0]] + rest[0]] + rest[1..];
        assert parts[1..] == rest[1..];
        assert s == [s[0]] + s[1..];
      }
    }
  }

  /** atoi reads the decimal numbers that an int holds. */
  ghost predicate ReadsDecimals(l: Libc) {
    forall n: nat :: n < 0x8000_0000 ==> l.atoi(Digits(n)) == n
  }

  function VersionText(major: nat, minor: nat, patch: nat): string {
    Joined([Digits(major), Digits(minor), Digits(patch)])
  }

  /** The components of a version text are those it was made of. */
  lemma VersionParsed(l: Libc, major: nat, minor: nat, patch: nat)
    requires ReadsDecimals(l) && major < 0x8000_0000 && minor < 0x8000_0000 && patch < 0x8000_0000
    ensures ParseVersion(l, VersionText(major, minor, patch)) == Version(major, minor, patch)
  {
    hide Digits, Tokens;
    var parts := [Digits(major), Digits(minor), Digits(patch)];
    TokensOfJoined(parts);
    assert NonEmpty(parts) == parts by { AllKept(parts); }
  }

  lemma AllKept(parts: seq<string>)
    requires |parts| == 3 && parts[0] != "" && parts[1] != "" && parts[2] != ""
    ensures NonEmpty(parts) == parts
  {
    assert parts[1..][1..][1..] == [];
    assert NonEmpty(parts[1..][1..]) == [parts[2]];
    assert NonEmpty(parts[1..]) == [parts[1]] + [parts[2]];
    assert parts == [parts[0]] + ([parts[1]] + [parts[2]]);
  }

  // ------------------------------------------------------------------ whole reports

  /** The report gives its version in this text, wherever it gives one. */
  ghost predicate GivesVersion(evs: seq<Event>, text: string) {
    forall i :: 0 <= i < |evs| && IsVersion(evs, i) ==> evs[i].value.s == text
  }

  lemma IsVersionUpTo(evs: seq<Event>, n: nat, i: nat)
    requires i < n <= |evs|
    ensures IsVersion(evs[..n], i) <==> IsVersion(evs, i)
  {
    hide OnTheWay, OpenNames;
    assert evs[..n][..i] == evs[..i];
  }

  /** The last version of a report that gives but one. */
  lemma {:induction false} OneLastVersion(l: Libc, evs: seq<Event>, n: nat, text: string, default: Version)
    requires n <= |evs| && GivesVersion(evs, text)
    ensures LastVersion(l, evs[..n], default) ==
            if exists i :: 0 <= i < n && IsVersion(evs, i) then ParseVersion(l, text) else default
    decreases n
  {
    hide IsVersion, ParseVersion;
    if n > 0 {
      assert evs[..n][..n - 1] == evs[..n - 1];
      IsVersionUpTo(evs, n, n - 1);
      OneLastVersion(l, evs, n - 1, text, default);
    }
  }

  /** The version that decides a timestamp's unit in such a report. */
  lemma DecidingVersion(l: Libc, evs: seq<Event>, text: string, i: nat)
    requires GivesVersion(evs, text) && i < |evs|
    ensures LastVersion(l, evs[..i], LastVersion(l, evs, NO_VERSION)) ==
            if exists j :: 0 <= j < |evs| && IsVersion(evs, j) then ParseVersion(l, text) else NO_VERSION
  {
    hide IsVersion, ParseVersion, LastVersion;
    assert evs[..|evs|] == evs;
    OneLastVersion(l, evs, |evs|, text, NO_VERSION);
    OneLastVersion(l, evs, i, text, LastVersion(l, evs, NO_VERSION));
  }

  lemma DatesInUnit(l: Libc, evs: seq<Event>, text: string, i: nat)
    requires GivesVersion(evs, text) && i < |evs| && IsDate(evs, i)
    ensures evs[i].Scalar? && evs[i].value.IntV?
    ensures var v := if exists j :: 0 <= j < |evs| && IsVersion(evs, j) then ParseVersion(l, text) else NO_VERSION;
            FixedEvent(l, evs, i, LastVersion(l, evs, NO_VERSION)) ==
            Scalar(evs[i].name, StrV(l.date(!Precedes(Components(v), SINCE), evs[i].value.i)))
  {
    hide IsVersion, ParseVersion, IsDate, DateText, Precedes, LastVersion, GivesVersion;
    DateIsInteger(evs, i);
    DecidingVersion(l, evs, text, i);
    UnitOfDates(l, LastVersion(l, evs[..i], LastVersion(l, evs, NO_VERSION)), evs[i].value.i);
  }

  lemma DateIsInteger(evs: seq<Event>, i: nat)
    requires i < |evs| && IsDate(evs, i)
    ensures evs[i].Scalar? && evs[i].value.IntV?
  {
  }

  /** A fixed report that gives one version: every timestamp has become a date string, from
      microseconds if that version is 3.3.0 or later and from seconds if it is earlier; a
      report without a version is read in seconds.  Integers elsewhere, strings, truth
      values, null and all brackets and names are as before. */
  lemma DatesOfReport(l: Libc, report: string, c: Limits, major: nat, minor: nat, patch: nat)
    requires Sane(l) && ReadsDecimals(l) && FixReport(l, report).FixedReport?
    requires c.nameLen > |FixReport(l, report).text| && c.stringLen > |FixReport(l, report).text|
    requires major < 0x8000_0000 && minor < 0x8000_0000 && patch < 0x8000_0000
    requires var evs := Decode(LIMITS, report).dec.fired;
             evs != [] ==> evs[0].Begin? && GivesVersion(evs, VersionText(major, minor, patch))
    ensures var evs, fixed := Decode(LIMITS, report).dec.fired, Decode(c, FixReport(l, report).text).dec.fired;
            var given := exists i :: 0 <= i < |evs| && IsVersion(evs, i);
            var micros := given && !Precedes([major, minor, patch], SINCE);
            && |fixed| == |evs|
            && (forall i :: 0 <= i < |evs| && IsDate(evs, i) ==>
                  evs[i].Scalar? && evs[i].value.IntV?
                  && fixed[i] == Scalar(evs[i].name, StrV(l.date(micros, evs[i].value.i))))
            && (forall i :: 0 <= i < |evs| && !IsDate(evs, i) && !(evs[i].Scalar? && evs[i].value.FloatV?) ==>
                  fixed[i] == evs[i])
  {
    hide Decode, FixReport, IsVersion, IsDate, ParseVersion, Precedes, Sane, ReadsDecimals, VersionText, GivesVersion,
         LastVersion;
    var evs := Decode(LIMITS, report).dec.fired;
    FixerTransforms(l, report, c);
    VersionParsed(l, major, minor, patch);
    forall i | 0 <= i < |evs| && IsDate(evs, i)
      ensures evs[i].Scalar? && evs[i].value.IntV?
      ensures var given := exists j :: 0 <= j < |evs| && IsVersion(evs, j);
              FixedEvent(l, evs, i, LastVersion(l, evs, NO_VERSION)) ==
              Scalar(evs[i].name,
                     StrV(l.date(given && !Precedes([major, minor, patch], SINCE), evs[i].value.i)))
    {
      DatesInUnit(l, evs, VersionText(major, minor, patch), i);
      assert Precedes(Components(NO_VERSION), SINCE) by { PrecedesThree(Components(NO_VERSION), SINCE); }
    }
    assert forall i :: 0 <= i < |evs| ==>
        FixedEvents(l, evs, LastVersion(l, evs, NO_VERSION))[i]
        == FixedEvent(l, evs, i, LastVersion(l, evs, NO_VERSION));
  }

  /** Reports of the current version 3.6.0 are in microseconds, those of any 3.2 in
      seconds. */
  lemma KnownVersions(patch: nat)
    ensures VersionText(3, 6, 0) == "3.6.0" && !Precedes([3, 6, 0], SINCE)
    ensures VersionText(3, 2, patch) == "3.2." + Digits(patch) && Precedes([3, 2, patch], SINCE)
  {
    PrecedesThree([3, 6, 0], SINCE);
    PrecedesThree([3, 2, patch], SINCE);
    JoinedThree(Digits(3), Digits(6), Digits(0));
    JoinedThree(Digits(3), Digits(2), Digits(patch));
  }

  lemma JoinedThree(a: string, b: string, c: string)
    ensures Joined([a, b, c]) == a + "." + b + "." + c
  {
    assert [a, b, c][1..] == [b, c] && [b, c][1..] == [c];
    assert Joined([c]) == c && Joined([b, c]) == b + ("." + c);
    assert a + "." + b + "." + c == a + ("." + (b + ("." + c)));
  }
}
