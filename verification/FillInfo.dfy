/** `Client.FillInfo` (pkg/vulnerability/vulnerability.go): completes the detected
    vulnerabilities of a slice in place from the database. */
module FillInfo {
  import opened Options
  import opened Levels
  import opened Severity

  datatype Status = StatusUnknown | StatusFixed | StatusAffected | VendorStatus(code: nat)

  datatype DataSource = DataSource(id: string, baseID: string)

  /** A detected vulnerability; its severity is a field of the embedded detail. */
  datatype Vuln<+D> = Vuln(
    id: string,
    fixed: string,
    status: Status,
    severitySource: string,
    primaryURL: string,
    dataSource: Option<DataSource>,
    detail: Detail<D>)

  /** The database and the choice of the primary URL, both fixed. */
  datatype Lookups<!D> = Lookups(
    get: string -> Option<Detail<D>>,
    url: (string, D, string) -> string)

  function SourceOf<D>(v: Vuln<D>): string {
    match v.dataSource
    case None => ""
    case Some(ds) => if ds.baseID != "" then ds.baseID else ds.id
  }

  function URLSource<D>(v: Vuln<D>): string {
    if v.dataSource.Some? then v.dataSource.value.id else ""
  }

  predicate IsGHSA(id: string) {
    "GHSA-" <= id
  }

  function WithStatus<D>(v: Vuln<D>): Vuln<D> {
    if v.fixed != "" then v.(status := StatusFixed)
    else if v.status == StatusUnknown then v.(status := StatusAffected)
    else v
  }

  /** The entry after filling, given the severity selected from the database entry `d`. */
  function Completed<D>(look: Lookups<D>, v: Vuln<D>, d: Detail<D>, pick: Pick): Vuln<D> {
    var keep := v.severitySource != "";
    var severity := if keep then v.detail.severity else pick.0;
    var source := if keep then v.severitySource else pick.1;
    var vendor := if keep then d.vendor[source := ParseLevel(severity)] else d.vendor;
    WithStatus(v).(detail := Detail(severity, vendor, d.rest), severitySource := source,
                   primaryURL := look.url(v.id, d.rest, URLSource(v)))
  }

  function Fill<D>(look: Lookups<D>, sources: seq<string>, v: Vuln<D>): Vuln<D> {
    match look.get(v.id)
    case None =>
      var w := WithStatus(v);
      if w.detail.severity == "" then w.(detail := w.detail.(severity := UNKNOWN)) else w
    case Some(d) => Completed(look, v, d, Select(IsGHSA(v.id), d, SourceOf(v), sources))
  }

  /** The severity selection for the entry terminates. */
  ghost predicate SelectionEnds<D>(look: Lookups<D>, sources: seq<string>, v: Vuln<D>) {
    look.get(v.id).Some? ==> Terminates(IsGHSA(v.id), look.get(v.id).value, SourceOf(v), sources)
  }

  /** The body of the loop, for one entry. */
  method FillEntry<D>(look: Lookups<D>, v0: Vuln<D>, sources: seq<string>) returns (v: Vuln<D>)
    requires SelectionEnds(look, sources, v0)
    ensures v == Fill(look, sources, v0)
  {
    v := v0;
    if v.fixed != "" {
      v := v.(status := StatusFixed);
    } else if v.status == StatusUnknown {
      v := v.(status := StatusAffected);
    }
    var found := look.get(v.id);
    if found.None? {
      if v.detail.severity == "" {
        v := v.(detail := v.detail.(severity := UNKNOWN));
      }
      return;
    }
    var d, source := found.value, SourceOf(v);
    var pick := GetSeverity(1, IsGHSA(v.id), d, source, sources);
    TerminatesIff(IsGHSA(v.id), d, source, sources);
    SelectIsGetSeverity(1, IsGHSA(v.id), d, source, sources);
    var severity, severitySource := pick.value.0, pick.value.1;
    if v.severitySource != "" {
      severity, severitySource := v.detail.severity, v.severitySource;
      d := d.(vendor := d.vendor[severitySource := ParseLevel(severity)]);
    }
    v := v.(detail := d.(severity := severity), severitySource := severitySource,
            primaryURL := look.url(v.id, d.rest, URLSource(v)));
  }

  /** Fills every entry of the slice in place. */
  method FillAll<D>(look: Lookups<D>, vulns: array<Vuln<D>>, sources: seq<string>)
    requires forall i :: 0 <= i < vulns.Length ==> SelectionEnds(look, sources, vulns[i])
    modifies vulns
    ensures forall i :: 0 <= i < vulns.Length ==> vulns[i] == Fill(look, sources, old(vulns[i]))
  {
    for i := 0 to vulns.Length
      invariant forall j :: 0 <= j < i ==> vulns[j] == Fill(look, sources, old(vulns[j]))
      invariant forall j :: i <= j < vulns.Length ==> vulns[j] == old(vulns[j])
    {
      var v := FillEntry(look, vulns[i], sources);
      vulns[i] := v;
    }
  }

  lemma StatusIdempotent<D>(v: Vuln<D>)
    ensures WithStatus(WithStatus(v)) == WithStatus(v)
  {
  }

  /** Filling a filled entry again changes nothing. */
  lemma FillIdempotent<D>(look: Lookups<D>, sources: seq<string>, v: Vuln<D>)
    ensures Fill(look, sources, Fill(look, sources, v)) == Fill(look, sources, v)
  {
    StatusIdempotent(v);
    if look.get(v.id).Some? {
      var d := look.get(v.id).value;
      CompletedIdempotent(look, v, d, Select(IsGHSA(v.id), d, SourceOf(v), sources), sources);
    }
  }

  /** An entry completed with a selected severity is kept when it is completed again: with
      a severity source it keeps its severity, and without one it is selected anew. */
  lemma CompletedIdempotent<D>(look: Lookups<D>, v: Vuln<D>, d: Detail<D>, pick: Pick, sources: seq<string>)
    requires pick == Select(IsGHSA(v.id), d, SourceOf(v), sources)
    ensures var w := Completed(look, v, d, pick);
            Completed(look, w, d, pick) == w && SourceOf(w) == SourceOf(v) && w.id == v.id
  {
    SelectNotEmpty(IsGHSA(v.id), d, SourceOf(v), sources);
    var w := Completed(look, v, d, pick);
    if v.severitySource != "" {
      assert d.vendor[w.severitySource := ParseLevel(w.detail.severity)] == w.detail.vendor;
    } else if pick.1 != "" {
      NameUnknownIff(d.vendor[pick.1]);
      assert d.vendor[pick.1 := ParseLevel(pick.0)] == d.vendor;
    }
  }

  /** A severity is left empty only if the entry came with a severity source and without
      a severity, and is known to the database. */
  lemma EmptySeverityIff<D>(look: Lookups<D>, sources: seq<string>, v: Vuln<D>)
    ensures Fill(look, sources, v).detail.severity == "" <==>
            look.get(v.id).Some? && v.severitySource != "" && v.detail.severity == ""
  {
    if look.get(v.id).Some? {
      SelectNotEmpty(IsGHSA(v.id), look.get(v.id).value, SourceOf(v), sources);
    }
  }

  /** What filling does to the fields. The status is fixed exactly with a fixed version, and
      an unknown one becomes affected. */
  lemma FillStatus<D>(look: Lookups<D>, sources: seq<string>, v: Vuln<D>)
    ensures var f := Fill(look, sources, v);
            && f.id == v.id && f.fixed == v.fixed && f.dataSource == v.dataSource
            && (v.fixed != "" ==> f.status == StatusFixed)
            && (v.fixed == "" && v.status == StatusUnknown ==> f.status == StatusAffected)
            && (v.fixed == "" && v.status != StatusUnknown ==> f.status == v.status)
  {
  }

  /** An entry that the database does not know keeps what it has, and an empty severity
      becomes unknown. */
  lemma FillUnlisted<D>(look: Lookups<D>, sources: seq<string>, v: Vuln<D>)
    requires look.get(v.id) == None
    ensures var f := Fill(look, sources, v);
            && f.detail == v.detail.(severity := if v.detail.severity == "" then "UNKNOWN" else v.detail.severity)
            && f.severitySource == v.severitySource && f.primaryURL == v.primaryURL
  {
  }

  /** The data source that counts for the severity: the base ID before the ID. */
  ghost predicate ComesFrom<D>(v: Vuln<D>, source: string) {
    match v.dataSource
    case None => source == ""
    case Some(ds) => (ds.baseID != "" && source == ds.baseID) || (ds.baseID == "" && source == ds.id)
  }

  /** An entry that the database knows gets its details and a URL for the data source's ID.
      It keeps a severity that came with a source, which is noted among the vendors', and
      gets a selected one otherwise; only identifiers that start with "GHSA-" ask GitHub. */
  lemma FillListed<D>(look: Lookups<D>, sources: seq<string>, v: Vuln<D>, d: Detail<D>, source: string)
    requires look.get(v.id) == Some(d) && ComesFrom(v, source)
    ensures var f := Fill(look, sources, v);
            && f.detail.rest == d.rest
            && f.primaryURL == look.url(v.id, d.rest, if v.dataSource.Some? then v.dataSource.value.id else "")
            && (v.severitySource != "" ==>
                  && f.severitySource == v.severitySource && f.detail.severity == v.detail.severity
                  && f.detail.vendor == d.vendor[v.severitySource := ParseLevel(v.detail.severity)])
            && (v.severitySource == "" ==>
                  && f.detail.vendor == d.vendor
                  && (f.detail.severity, f.severitySource) ==
                     Select(|v.id| >= 5 && v.id[..5] == "GHSA-", d, source, sources))
  {
    assert IsGHSA(v.id) <==> |v.id| >= 5 && v.id[..5] == "GHSA-";
  }
}
