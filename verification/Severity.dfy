/** Severity selection and `FillInfo` (pkg/vulnerability/vulnerability.go). */
module Severity {
  import opened Options
  import opened Levels

  const AUTO := "auto"
  const NVD := "nvd"
  const GHSA := "ghsa"
  /** The database entry of a vulnerability; `rest` is what severity selection ignores. */
  datatype Detail<+D> = Detail(severity: string, vendor: map<string, Level>, rest: D)

  type Pick = (string, string)

  // ---------------------------------------------------------------------------
  // Selection. `getSeverity` and `autoDetectSeverity` call each other; `steps` bounds
  // the depth of the calls, and `None` says that the bound was hit.

  function GetSeverity<D>(steps: nat, ghsa: bool, d: Detail<D>, source: string, sources: seq<string>): Option<Pick>
    decreases steps, |sources|
  {
    if sources == [] then Some((UNKNOWN, ""))
    else if sources[0] == AUTO then
      if steps == 0 then None else AutoDetect(steps - 1, ghsa, d, source)
    else if sources[0] in d.vendor then Some((Name(d.vendor[sources[0]]), sources[0]))
    else GetSeverity(steps, ghsa, d, source, sources[1..])
  }

  function AutoDetect<D>(steps: nat, ghsa: bool, d: Detail<D>, source: string): Option<Pick>
    decreases steps, 4
  {
    if source in d.vendor then Some((Name(d.vendor[source]), source))
    else
      var sources := if ghsa then [source, GHSA, NVD] else [source, NVD];
      match GetSeverity(steps, ghsa, d, source, sources)
      case None => None
      case Some(pick) =>
        if pick.0 != UNKNOWN then Some(pick)
        else if d.severity == "" then Some((UNKNOWN, ""))
        else Some((d.severity, ""))
  }

  ghost predicate Terminates<D>(ghsa: bool, d: Detail<D>, source: string, sources: seq<string>) {
    exists steps :: GetSeverity(steps, ghsa, d, source, sources).Some?
  }

  /** The first source that is "auto" or has a vendor severity is "auto". */
  ghost predicate ReachesAuto<D>(d: Detail<D>, sources: seq<string>) {
    sources != [] && (sources[0] == AUTO || (sources[0] !in d.vendor && ReachesAuto(d, sources[1..])))
  }

  lemma {:induction false} AutoSourceDiverges<D>(steps: nat, ghsa: bool, d: Detail<D>)
    requires AUTO !in d.vendor
    ensures AutoDetect(steps, ghsa, d, AUTO) == None
  {
    if steps > 0 {
      AutoSourceDiverges(steps - 1, ghsa, d);
    }
  }

  lemma {:induction false} SkipToAuto<D>(steps: nat, ghsa: bool, d: Detail<D>, source: string, sources: seq<string>)
    requires ReachesAuto(d, sources)
    ensures GetSeverity(steps, ghsa, d, source, sources) ==
            if steps == 0 then None else AutoDetect(steps - 1, ghsa, d, source)
    decreases |sources|
  {
    if sources[0] != AUTO {
      SkipToAuto(steps, ghsa, d, source, sources[1..]);
    }
  }

  lemma {:induction false} NoAutoTerminates<D>(steps: nat, ghsa: bool, d: Detail<D>, source: string, sources: seq<string>)
    requires !ReachesAuto(d, sources)
    ensures GetSeverity(steps, ghsa, d, source, sources).Some?
    decreases |sources|
  {
    if sources != [] && sources[0] !in d.vendor {
      NoAutoTerminates(steps, ghsa, d, source, sources[1..]);
    }
  }

  /** What detection gives for an ordinary data source: its own severity, then for GHSA
      identifiers that of GitHub, then that of NVD; a known severity of the database
      entry itself comes next, and "UNKNOWN" last. */
  function Detected<D>(ghsa: bool, d: Detail<D>, source: string): Pick {
    if source in d.vendor then (Name(d.vendor[source]), source)
    else
      var first := if ghsa && GHSA in d.vendor then Some(GHSA) else if NVD in d.vendor then Some(NVD) else None;
      if first.Some? && d.vendor[first.value] != 0 then (Name(d.vendor[first.value]), first.value)
      else (if d.severity == "" then UNKNOWN else d.severity, "")
  }

  /** Detection ends for every data source other than "auto", and follows the precedence. */
  lemma AutoPrecedence<D>(steps: nat, ghsa: bool, d: Detail<D>, source: string)
    requires source != AUTO || source in d.vendor
    ensures AutoDetect(steps, ghsa, d, source) == Some(Detected(ghsa, d, source))
  {
    if source !in d.vendor {
      var nvd := [NVD];
      assert [GHSA, NVD][1..] == nvd && [source, NVD][1..] == nvd && [source, GHSA, NVD][1..] == [GHSA, NVD];
      assert nvd[1..] == [];
      assert |NVD| == 3 && |AUTO| == 4 && GHSA[0] != AUTO[0];
      assert NVD != AUTO && GHSA != AUTO;
      assert GetSeverity(steps, ghsa, d, source, []) == Some((UNKNOWN, ""));
      if GHSA in d.vendor {
        NameUnknownIff(d.vendor[GHSA]);
      }
      if NVD in d.vendor {
        NameUnknownIff(d.vendor[NVD]);
      }
      var last := GetSeverity(steps, ghsa, d, source, nvd);
      assert last == Some(if NVD in d.vendor then (Name(d.vendor[NVD]), NVD) else (UNKNOWN, ""));
      var two := GetSeverity(steps, ghsa, d, source, [GHSA, NVD]);
      assert two == if GHSA in d.vendor then Some((Name(d.vendor[GHSA]), GHSA)) else last;
      assert GetSeverity(steps, ghsa, d, source, [source, NVD]) == last;
      assert GetSeverity(steps, ghsa, d, source, [source, GHSA, NVD]) == two;
    }
  }

  /** Selection terminates unless it reaches "auto" with the data source "auto" and no
      vendor severity of that name. */
  lemma TerminatesIff<D>(ghsa: bool, d: Detail<D>, source: string, sources: seq<string>)
    ensures Terminates(ghsa, d, source, sources) <==>
            !ReachesAuto(d, sources) || source != AUTO || AUTO in d.vendor
  {
    if !ReachesAuto(d, sources) {
      NoAutoTerminates(0, ghsa, d, source, sources);
    } else if source != AUTO || AUTO in d.vendor {
      SkipToAuto(1, ghsa, d, source, sources);
      AutoPrecedence(0, ghsa, d, source);
    } else {
      forall steps: nat ensures GetSeverity(steps, ghsa, d, source, sources).None? {
        SkipToAuto(steps, ghsa, d, source, sources);
        if steps > 0 {
          AutoSourceDiverges(steps - 1, ghsa, d);
        }
      }
    }
  }

  /** The selection itself, for the cases in which it terminates: sources are tried in
      order, and "auto" ends the search. */
  function Select<D>(ghsa: bool, d: Detail<D>, source: string, sources: seq<string>): Pick {
    if sources == [] then (UNKNOWN, "")
    else if sources[0] == AUTO then Detected(ghsa, d, source)
    else if sources[0] in d.vendor then (Name(d.vendor[sources[0]]), sources[0])
    else Select(ghsa, d, source, sources[1..])
  }

  lemma {:induction false} SelectIsGetSeverity<D>(steps: nat, ghsa: bool, d: Detail<D>, source: string, sources: seq<string>)
    requires (!ReachesAuto(d, sources) || source != AUTO || AUTO in d.vendor) && steps > 0
    ensures GetSeverity(steps, ghsa, d, source, sources) == Some(Select(ghsa, d, source, sources))
    decreases |sources|
  {
    if sources != [] {
      if sources[0] == AUTO {
        AutoPrecedence(steps - 1, ghsa, d, source);
      } else if sources[0] !in d.vendor {
        SelectIsGetSeverity(steps, ghsa, d, source, sources[1..]);
      }
    }
  }

  lemma {:induction false} SelectNotEmpty<D>(ghsa: bool, d: Detail<D>, source: string, sources: seq<string>)
    ensures Select(ghsa, d, source, sources).0 != ""
    ensures var pick := Select(ghsa, d, source, sources);
            pick.1 != "" ==> pick.1 in d.vendor && pick.0 == Name(d.vendor[pick.1])
    decreases |sources|
  {
    forall k | k in d.vendor ensures Name(d.vendor[k]) != "" {
      NameUnknownIff(d.vendor[k]);
    }
    if sources != [] {
      SelectNotEmpty(ghsa, d, source, sources[1..]);
    }
  }

  /** Detection from the vendor severities: the data source's own comes first; then GitHub's
      for GHSA identifiers and, without one, NVD's, unless unknown; then the severity of the
      entry, if it has one. */
  lemma DetectedExactly<D>(ghsa: bool, d: Detail<D>, source: string)
    ensures var pick := Detected(ghsa, d, source);
            var entry := if d.severity == "" then "UNKNOWN" else d.severity;
            && (source in d.vendor ==> pick == (Name(d.vendor[source]), source))
            && (source !in d.vendor && ghsa && "ghsa" in d.vendor && d.vendor["ghsa"] != 0 ==>
                  pick == (Name(d.vendor["ghsa"]), "ghsa"))
            && (source !in d.vendor && ghsa && "ghsa" in d.vendor && d.vendor["ghsa"] == 0 ==> pick == (entry, ""))
            && (source !in d.vendor && (!ghsa || "ghsa" !in d.vendor) && "nvd" in d.vendor && d.vendor["nvd"] != 0 ==>
                  pick == (Name(d.vendor["nvd"]), "nvd"))
            && (source !in d.vendor && (!ghsa || "ghsa" !in d.vendor) && ("nvd" !in d.vendor || d.vendor["nvd"] == 0) ==>
                  pick == (entry, ""))
  {
  }

  /** The first of the configured sources that is "auto" or has a vendor severity decides;
      if there is none, the severity is unknown. */
  lemma {:induction false} SelectExactly<D>(ghsa: bool, d: Detail<D>, source: string, sources: seq<string>, k: nat)
    requires k <= |sources| && forall i :: 0 <= i < k ==> sources[i] != "auto" && sources[i] !in d.vendor
    ensures k == |sources| ==> Select(ghsa, d, source, sources) == ("UNKNOWN", "")
    ensures k < |sources| && sources[k] == "auto" ==> Select(ghsa, d, source, sources) == Detected(ghsa, d, source)
    ensures k < |sources| && sources[k] != "auto" && sources[k] in d.vendor ==>
              Select(ghsa, d, source, sources) == (Name(d.vendor[sources[k]]), sources[k])
  {
    if k > 0 {
      SelectExactly(ghsa, d, source, sources[1..], k - 1);
    }
  }
}
