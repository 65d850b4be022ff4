/** Freshness of the check bundle (pkg/policy/policy.go): `NeedsUpdate` and
    `DownloadBuiltinChecks` over the metadata file, a clock and a remote registry.

    Times are in nanoseconds. What the registry, the clock and the disk answer is given
    to every operation as a parameter. */
module CheckBundle {
  import opened Options

  const BUNDLE_VERSION := 2
  const UPDATE_INTERVAL := 24 * 3600 * 1_000_000_000

  /** 24 hours in nanoseconds, as the theorems have it. */
  ghost const A_DAY := 86_400_000_000_000

  datatype Meta = Meta(digest: string, downloadedAt: int, major: Option<int>, custom: bool)

  datatype MetaFile = Absent | Corrupt | Stored(meta: Meta)

  /** Writing the file can fail before it is touched, or after it was emptied. */
  datatype Write = Written | CreateFailed | EncodeFailed

  /** The cached bundle need not be replaced because of its version. */
  predicate Current(meta: Meta) {
    meta.custom || meta.major == Some(2)
  }

  function AfterWrite(file: MetaFile, meta: Meta, w: Write): MetaFile {
    match w
    case Written => Stored(meta)
    case CreateFailed => file
    case EncodeFailed => Corrupt
  }

  function Downloaded(digest: string, version: int, at: int): Meta {
    Meta(digest, at, Some(version), version == 0)
  }

  class Client {
    var file: MetaFile

    constructor (file: MetaFile)
      ensures this.file == file
    {
      this.file := file;
    }

    /** `NeedsUpdate`; `None` is an error. The registry is asked for its digest only if a
        current bundle is at least a day old. */
    method NeedsUpdate(now: int, digest: Option<string>, storedAt: int, w: Write)
      returns (update: Option<bool>, contacted: bool)
      modifies this
      ensures contacted <==> old(file).Stored? && Current(old(file).meta) && now >= old(file).meta.downloadedAt + A_DAY
      ensures !contacted ==>
                && file == old(file)
                && update == Some(!old(file).Stored? || !Current(old(file).meta))
      ensures contacted && digest.None? ==> update == None && file == old(file)
      ensures contacted && digest.Some? && digest.value != old(file).meta.digest ==> update == Some(true) && file == old(file)
      ensures contacted && digest.Some? && digest.value == old(file).meta.digest ==>
                && (w.Written? ==> update == Some(false) && file == Stored(old(file).meta.(downloadedAt := storedAt)))
                && (w.CreateFailed? ==> update == None && file == old(file))
                && (w.EncodeFailed? ==> update == None && file == Corrupt)
    {
      contacted := false;
      if !file.Stored? {
        return Some(true), false;
      }
      var meta := file.meta;
      if !meta.custom {
        if meta.major.None? {
          return Some(true), false;
        }
        if meta.major.value != BUNDLE_VERSION {
          return Some(true), false;
        }
      }
      if now < meta.downloadedAt + UPDATE_INTERVAL {
        return Some(false), false;
      }
      contacted := true;
      if digest.None? {
        return None, true;
      }
      if meta.digest != digest.value {
        return Some(true), true;
      }
      file := AfterWrite(file, Meta(meta.digest, storedAt, meta.major, meta.custom), w);
      update := if w.Written? then Some(false) else None;
    }

    /** `DownloadBuiltinChecks`: any failing step leaves the metadata as they were, except
        a failing encoder. */
    method Download(fetched: bool, digest: Option<string>, version: Option<int>, storedAt: int, w: Write) returns (ok: bool)
      modifies this
      ensures ok <==> fetched && digest.Some? && version.Some? && w.Written?
      ensures ok ==> file == Stored(Meta(digest.value, storedAt, Some(version.value), version.value == 0))
      ensures !ok ==> file == old(file) || (file == Corrupt && w.EncodeFailed?)
    {
      if !fetched || digest.None? || version.None? {
        return false;
      }
      var ver := version.value;
      file := AfterWrite(file, Meta(digest.value, storedAt, Some(ver), ver == 0), w);
      ok := w.Written?;
    }

    /** One successful session, as the caller runs it: check, then download if needed. */
    method Session(e: Env) returns (contacted: bool)
      modifies this
      ensures file == After(old(file), e) && contacted == Contacts(old(file), e)
    {
      var update, asked := NeedsUpdate(e.checkedAt, Some(e.digest), e.refreshedAt, Written);
      contacted := asked;
      if update == Some(true) {
        var _ := Download(true, Some(e.downloadDigest), Some(e.version), e.downloadedAt, Written);
        contacted := true;
      }
    }
  }

  // ---------------------------------------------------------------------------
  // Runs of sessions

  /** What one successful session meets: the clock at the check, at a refresh and at the
      end of a download; the digest at the check and at the download; the version. */
  datatype Env = Env(
    checkedAt: int, digest: string, refreshedAt: int,
    downloadDigest: string, version: int, downloadedAt: int)

  ghost predicate Contacts(file: MetaFile, e: Env) {
    !(file.Stored? && Current(file.meta) && e.checkedAt < file.meta.downloadedAt + A_DAY)
  }

  ghost predicate Downloads(file: MetaFile, e: Env) {
    Contacts(file, e) && !(file.Stored? && Current(file.meta) && file.meta.digest == e.digest)
  }

  ghost function After(file: MetaFile, e: Env): MetaFile {
    if Downloads(file, e) then Stored(Downloaded(e.downloadDigest, e.version, e.downloadedAt))
    else if Contacts(file, e) then Stored(file.meta.(downloadedAt := e.refreshedAt))
    else file
  }

  /** The clock never runs backwards, within a session and from one to the next. */
  ghost predicate Timely(es: seq<Env>) {
    && (forall i :: 0 <= i < |es| ==> es[i].checkedAt <= es[i].refreshedAt <= es[i].downloadedAt)
    && (forall i, j :: 0 <= i < j < |es| ==> es[i].downloadedAt <= es[j].checkedAt)
  }

  /** Every bundle offered is custom or of the expected major version. */
  ghost predicate Expected(es: seq<Env>) {
    forall i :: 0 <= i < |es| ==> es[i].version == 0 || es[i].version == 2
  }

  ghost function FileAt(file: MetaFile, es: seq<Env>, k: nat): MetaFile
    requires k <= |es|
  {
    if k == 0 then file else After(FileAt(file, es, k - 1), es[k - 1])
  }

  ghost predicate ContactsAt(file: MetaFile, es: seq<Env>, k: nat)
    requires k < |es|
  {
    Contacts(FileAt(file, es, k), es[k])
  }

  /** The metadata left by a session that contacted the registry: the digest is the one
      seen last, the time lies within the session, and the next session stays offline
      exactly while the bundle is of an expected version and less than a day old. */
  lemma ContactLeaves(file: MetaFile, e: Env, next: Env)
    requires Contacts(file, e) && e.checkedAt <= e.refreshedAt <= e.downloadedAt
    ensures After(file, e).Stored?
    ensures After(file, e).meta.digest == if Downloads(file, e) then e.downloadDigest else e.digest
    ensures e.checkedAt <= After(file, e).meta.downloadedAt <= e.downloadedAt
    ensures Downloads(file, e) ==>
              (Contacts(After(file, e), next) <==>
                 (e.version != 0 && e.version != 2) || next.checkedAt >= e.downloadedAt + A_DAY)
    ensures !Downloads(file, e) ==>
              (Contacts(After(file, e), next) <==> next.checkedAt >= e.refreshedAt + A_DAY)
  {
  }

  /** While nobody contacts the registry the file stays as session `i` left it. */
  lemma {:induction false} QuietKeepsFile(file: MetaFile, es: seq<Env>, i: nat, k: nat)
    requires i < k <= |es| && forall m :: i < m < k ==> !ContactsAt(file, es, m)
    ensures FileAt(file, es, k) == FileAt(file, es, i + 1)
    decreases k
  {
    if k > i + 1 {
      QuietKeepsFile(file, es, i, k - 1);
      assert !ContactsAt(file, es, k - 1);
    }
  }

  ghost predicate Unexpected(version: int) {
    version != 0 && version != 2
  }

  /** Session `k` downloads a bundle that the next check will not accept. */
  ghost predicate FetchesUnexpected(file: MetaFile, es: seq<Env>, k: nat)
    requires k < |es|
  {
    Downloads(FileAt(file, es, k), es[k]) && Unexpected(es[k].version)
  }

  ghost predicate DayApart(a: Env, b: Env) {
    b.checkedAt - a.checkedAt >= 24 * 60 * 60 * 1_000_000_000
  }

  /** Any two sessions that contact the registry are at least a day apart. */
  ghost predicate ContactsSpaced(file: MetaFile, es: seq<Env>) {
    forall i, j :: 0 <= i < j < |es| && ContactsAt(file, es, i) && ContactsAt(file, es, j) ==> DayApart(es[i], es[j])
  }

  /** A session that fetches an unexpected version is not followed within a day. */
  ghost predicate UnexpectedWaits(file: MetaFile, es: seq<Env>) {
    forall i :: 0 <= i < |es| - 1 && FetchesUnexpected(file, es, i) ==> DayApart(es[i], es[i + 1])
  }

  lemma NextContactWaits(file: MetaFile, es: seq<Env>, i: nat, j: nat)
    requires i < j < |es| && Timely(es) && UnexpectedWaits(file, es)
    requires ContactsAt(file, es, i) && ContactsAt(file, es, j)
    requires forall m :: i < m < j ==> !ContactsAt(file, es, m)
    ensures DayApart(es[i], es[j])
  {
    ContactLeaves(FileAt(file, es, i), es[i], es[i + 1]);
    if FetchesUnexpected(file, es, i) {
      assert ContactsAt(file, es, i + 1);
    } else {
      QuietKeepsFile(file, es, i, j);
      ContactLeaves(FileAt(file, es, i), es[i], es[j]);
    }
  }

  lemma {:induction false} ContactsWait(file: MetaFile, es: seq<Env>, i: nat, j: nat)
    requires i < j < |es| && Timely(es) && UnexpectedWaits(file, es)
    requires ContactsAt(file, es, i) && ContactsAt(file, es, j)
    ensures DayApart(es[i], es[j])
    decreases j - i
  {
    if m :| i < m < j && ContactsAt(file, es, m) {
      ContactsWait(file, es, i, m);
      assert es[m].checkedAt <= es[m].downloadedAt <= es[j].checkedAt;
    } else {
      NextContactWaits(file, es, i, j);
    }
  }

  /** With a clock that never runs backwards, and whatever was cached before, the sessions
      that contact the registry are at least a day apart if and only if every session that
      fetches a bundle of an unexpected version is followed by one at least a day later. */
  lemma ContactsADayApartIff(file: MetaFile, es: seq<Env>)
    requires Timely(es)
    ensures ContactsSpaced(file, es) <==> UnexpectedWaits(file, es)
  {
    if UnexpectedWaits(file, es) {
      forall i, j | 0 <= i < j < |es| && ContactsAt(file, es, i) && ContactsAt(file, es, j) ensures DayApart(es[i], es[j]) {
        ContactsWait(file, es, i, j);
      }
    }
    if ContactsSpaced(file, es) {
      forall i | 0 <= i < |es| - 1 && FetchesUnexpected(file, es, i) ensures DayApart(es[i], es[i + 1]) {
        ContactLeaves(FileAt(file, es, i), es[i], es[i + 1]);
        assert ContactsAt(file, es, i) && ContactsAt(file, es, i + 1);
      }
    }
  }

  /** So the day is kept whenever every bundle offered is custom or of the expected version. */
  lemma ContactsADayApart(file: MetaFile, es: seq<Env>, i: nat, j: nat)
    requires i < j < |es| && Timely(es) && Expected(es)
    requires ContactsAt(file, es, i) && ContactsAt(file, es, j)
    ensures es[j].checkedAt - es[i].checkedAt >= 24 * 60 * 60 * 1_000_000_000
  {
    ContactsADayApartIff(file, es);
  }

  /** Once a bundle of an unexpected version has been fetched, every later session downloads
      again, however soon it comes, as long as the registry offers unexpected versions. */
  lemma {:induction false} UnexpectedAlwaysRefetched(file: MetaFile, es: seq<Env>, i: nat, j: nat)
    requires i <= j < |es| && FetchesUnexpected(file, es, i)
    requires forall k :: i <= k < j ==> Unexpected(es[k].version)
    ensures Downloads(FileAt(file, es, j), es[j])
    decreases j
  {
    if i < j {
      UnexpectedAlwaysRefetched(file, es, i, j - 1);
    }
  }
}
