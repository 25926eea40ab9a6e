/**
 * The reconciliation pass of the Wings backup cleaner. Every archive in the
 * backup directory (a name ending in `.tar.gz` or `.zip`) is looked up, by
 * the name with its last two extensions stripped, in the rows of the panel's
 * `backups` table; it is deleted when no row names it (orphan), when the
 * first row naming it is not successful (failed), or when hash checking is on
 * and the digest recorded in that row differs from the file's SHA-1 (hash
 * mismatch). The pass counts the deletions and the bytes they free.
 */
module Reconcile {
  import opened Wrappers
  import opened PyStr
  import Hasher

  type Bytes = Hasher.Bytes

  /**
   * One row of the `backups` table, reduced to the three columns the pass
   * reads: column 2 (the backup's identifier), column 4 (whether it
   * succeeded; `None` for SQL NULL) and column 9 (the checksum, written
   * `<algorithm>:<hex digest>`; `None` for SQL NULL).
   */
  datatype BackupRecord = BackupRecord(id: string, successful: Option<int>, checksum: Option<string>)

  /** Python truthiness of the success column. */
  predicate Truthy(v: Option<int>) {
    v.Some? && v.value != 0
  }

  predicate Distinct<T(==)>(s: seq<T>) {
    forall i, j :: 0 <= i < j < |s| ==> s[i] != s[j]
  }

  function Elements<T>(s: seq<T>): set<T> {
    set x | x in s
  }

  /** A distinct sequence has as many elements as its set. */
  lemma {:induction false} DistinctCardinality<T>(s: seq<T>)
    requires Distinct(s)
    ensures |Elements(s)| == |s|
    decreases |s|
  {
    if s != [] {
      var init := s[..|s| - 1];
      assert Distinct(init);
      DistinctCardinality(init);
      assert Elements(s) == Elements(init) + {s[|s| - 1]};
      assert s[|s| - 1] !in Elements(init);
    }
  }

  /** The backup directory, `/var/lib/pterodactyl/backups/`, as a map from entry name to content. */
  class BackupDirectory {
    var files: map<string, Bytes>

    constructor (files: map<string, Bytes>)
      ensures this.files == files
    {
      this.files := files;
    }

    /** `os.listdir`: every entry once, in an order the file system chooses. */
    method List() returns (names: seq<string>)
      ensures Distinct(names)
      ensures forall n :: n in names <==> n in files
    {
      names := [];
      var rest := files.Keys;
      while rest != {}
        invariant rest <= files.Keys
        invariant Distinct(names)
        invariant forall n :: n in names <==> n in files && n !in rest
        decreases |rest|
      {
        var n :| n in rest;
        names := names + [n];
        rest := rest - {n};
      }
    }

    /** `os.path.getsize`: the length of the entry's content. */
    method Size(name: string) returns (size: nat)
      requires name in files
      ensures size == |files[name]|
    {
      size := |files[name]|;
    }

    /** Opening and reading an entry. */
    method Read(name: string) returns (content: Bytes)
      requires name in files
      ensures content == files[name]
    {
      content := files[name];
    }

    /** `os.remove`: the entry is gone and every other entry is untouched. */
    method Remove(name: string)
      requires name in files
      modifies this
      ensures files == old(files) - {name}
    {
      files := files - {name};
    }
  }

  /** The listing filter: names ending in `.tar.gz` or `.zip` (case-sensitive). */
  predicate IsBackupArchive(name: string) {
    EndsWith(name, ".tar.gz") || EndsWith(name, ".zip")
  }

  /** The backup archives of a listing. */
  function Candidates(listing: seq<string>): (r: seq<string>)
    ensures forall n :: n in r <==> n in listing && IsBackupArchive(n)
    ensures Distinct(listing) ==> Distinct(r)
    ensures |r| <= |listing|
    decreases |listing|
  {
    if listing == [] then []
    else
      var init := Candidates(listing[..|listing| - 1]);
      var last := listing[|listing| - 1];
      assert forall n :: n in listing <==> n in listing[..|listing| - 1] || n == last;
      if IsBackupArchive(last) then init + [last] else init
  }

  /** The identifier a file is looked up by: its name after two `os.path.splitext` calls. */
  function DeriveId(name: string): string {
    SplitExt(SplitExt(name).0).0
  }

  /** The identifier is a prefix of the file name. */
  lemma DeriveIdIsPrefix(name: string)
    ensures DeriveId(name) <= name
  {
    SplitExtParts(name);
    SplitExtParts(SplitExt(name).0);
  }

  /** `X.tar.gz` is looked up as `X`, unless `X` is made of dots only (then as `X.tar`). */
  lemma DeriveIdTarGz(stem: string)
    requires '/' !in stem
    ensures DeriveId(stem + ".tar.gz") == if HasNonDot(stem) then stem else stem + ".tar"
  {
    assert stem + ".tar.gz" == (stem + ".tar") + ".gz";
    SplitExtOne(stem + ".tar", ".gz");
    assert HasNonDot(stem + ".tar") by {
      assert (stem + ".tar")[|stem| + 1] == 't';
    }
    SplitExtOne(stem, ".tar");
  }

  /** `X.zip` is looked up as `X` with its own last extension stripped, unless `X` is made of dots only. */
  lemma DeriveIdZip(stem: string)
    requires '/' !in stem
    ensures DeriveId(stem + ".zip") == if HasNonDot(stem) then SplitExt(stem).0 else stem + ".zip"
  {
    SplitExtOne(stem, ".zip");
  }

  /** A plain name without dots, archived as `.zip` or `.tar.gz`, is looked up as itself. */
  lemma DeriveIdPlainName(stem: string)
    requires stem != [] && '/' !in stem && '.' !in stem
    ensures DeriveId(stem + ".zip") == stem
    ensures DeriveId(stem + ".tar.gz") == stem
  {
    assert stem[0] != '.';
    assert HasNonDot(stem);
    DeriveIdTarGz(stem);
    DeriveIdZip(stem);
    RFindLast(stem, '.');
    assert RFind(stem, '.') == -1;
  }

  /** The index of the first row whose identifier is `id`: the record scan breaks at it. */
  function FirstMatch(records: seq<BackupRecord>, id: string): (r: Option<nat>)
    ensures r.None? <==> forall k :: 0 <= k < |records| ==> records[k].id != id
    ensures r.Some? ==> r.value < |records| && records[r.value].id == id
    ensures r.Some? ==> forall k :: 0 <= k < r.value ==> records[k].id != id
    decreases |records|
  {
    if records == [] then None
    else if records[0].id == id then Some(0)
    else
      match FirstMatch(records[1..], id)
      case None => None
      case Some(k) => Some(k + 1)
  }

  /** The digest recorded in a checksum column, `checksum.split(":")[1]`; `None` where Python raises. */
  function RecordedDigest(checksum: Option<string>): Option<string> {
    match checksum
    case None => None
    case Some(text) => SecondField(text, ':')
  }

  /** What the pass compares a file against: the rows of the table, the hash-check answer and the digest function. */
  datatype Policy = Policy(records: seq<BackupRecord>, checkSha1: bool, sha1: Bytes -> string)

  /** The fate of one archive; `Abort` is an exception that ends the whole run. */
  datatype Decision = Keep | DeleteFailed | DeleteMismatch | DeleteOrphan | Abort

  predicate Deletes(d: Decision) {
    d.DeleteFailed? || d.DeleteMismatch? || d.DeleteOrphan?
  }

  /** The retention policy for one archive, rules tried in order. */
  function Decide(name: string, content: Bytes, p: Policy): Decision {
    match FirstMatch(p.records, DeriveId(name))
    case None => DeleteOrphan
    case Some(k) =>
      var rec := p.records[k];
      if !Truthy(rec.successful) then DeleteFailed
      else if !p.checkSha1 then Keep
      else
        match RecordedDigest(rec.checksum)
        case None => Abort
        case Some(expected) => if expected != p.sha1(content) then DeleteMismatch else Keep
  }

  /** A file no row names is deleted as an orphan. */
  lemma OrphanIsDeleted(name: string, content: Bytes, p: Policy)
    requires forall k :: 0 <= k < |p.records| ==> p.records[k].id != DeriveId(name)
    ensures Decide(name, content, p) == DeleteOrphan
  {
  }

  /** Only the first row naming the file counts; if it is not successful the file is deleted, whatever the flag and the checksum. */
  lemma FailedIsDeleted(name: string, content: Bytes, p: Policy, k: nat)
    requires k < |p.records| && p.records[k].id == DeriveId(name)
    requires forall j :: 0 <= j < k ==> p.records[j].id != DeriveId(name)
    requires !Truthy(p.records[k].successful)
    ensures Decide(name, content, p) == DeleteFailed
  {
  }

  /** With hash checking off, a file whose first row is successful is kept, whatever its checksum. */
  lemma UncheckedSuccessIsKept(name: string, content: Bytes, p: Policy, k: nat)
    requires k < |p.records| && p.records[k].id == DeriveId(name)
    requires forall j :: 0 <= j < k ==> p.records[j].id != DeriveId(name)
    requires Truthy(p.records[k].successful) && !p.checkSha1
    ensures Decide(name, content, p) == Keep
  {
  }

  /** With hash checking on and a successful first row, a NULL checksum or one without `:` aborts the run. */
  lemma MalformedChecksumAborts(name: string, content: Bytes, p: Policy, k: nat)
    requires k < |p.records| && p.records[k].id == DeriveId(name)
    requires forall j :: 0 <= j < k ==> p.records[j].id != DeriveId(name)
    requires Truthy(p.records[k].successful) && p.checkSha1
    requires p.records[k].checksum.None? || ':' !in p.records[k].checksum.value
    ensures Decide(name, content, p) == Abort
  {
    if p.records[k].checksum.Some? {
      SecondFieldMissing(p.records[k].checksum.value, ':');
    }
  }

  /**
   * With hash checking on and a successful first row whose checksum is
   * `<algorithm>:<digest>` (possibly followed by more `:`-separated text),
   * the file is deleted as mismatched iff `digest` differs from its SHA-1,
   * and kept otherwise.
   */
  lemma CheckedChecksum(name: string, content: Bytes, p: Policy, k: nat, algorithm: string, digest: string, rest: string)
    requires k < |p.records| && p.records[k].id == DeriveId(name)
    requires forall j :: 0 <= j < k ==> p.records[j].id != DeriveId(name)
    requires Truthy(p.records[k].successful) && p.checkSha1
    requires p.records[k].checksum == Some(algorithm + [':'] + digest + rest)
    requires ':' !in algorithm && ':' !in digest && (rest == [] || rest[0] == ':')
    ensures Decide(name, content, p) == DeleteMismatch <==> digest != p.sha1(content)
    ensures Decide(name, content, p) == Keep <==> digest == p.sha1(content)
  {
    SecondFieldSpec(algorithm, ':', digest, rest);
  }

  /** The policy's decision for each candidate, each judged on its content when the pass began. */
  function Verdicts(names: seq<string>, files: map<string, Bytes>, p: Policy): (ds: seq<Decision>)
    requires forall n :: n in names ==> n in files
    ensures |ds| == |names|
  {
    seq(|names|, i requires 0 <= i < |names| => Decide(names[i], files[names[i]], p))
  }

  /** The decision for the `i`-th candidate is the policy applied to it. */
  lemma VerdictAt(names: seq<string>, files: map<string, Bytes>, p: Policy, i: nat)
    requires forall n :: n in names ==> n in files
    requires i < |names|
    ensures Verdicts(names, files, p)[i] == Decide(names[i], files[names[i]], p)
  {
  }

  /**
   * The pass over the first `n` candidates, in order, given the decision for
   * each: the files it deletes, in the order it deletes them, and the file at
   * which it aborted, if it did.
   */
  datatype SweepResult = SweepResult(removed: seq<string>, abortedAt: Option<string>)

  function Sweep(names: seq<string>, ds: seq<Decision>, n: nat): (r: SweepResult)
    requires n <= |names| == |ds|
    ensures forall x :: x in r.removed ==> x in names
    ensures r.abortedAt.Some? ==> r.abortedAt.value in names
  {
    if n == 0 then SweepResult([], None)
    else
      var prev := Sweep(names, ds, n - 1);
      if prev.abortedAt.Some? then prev
      else
        match ds[n - 1]
        case Abort => SweepResult(prev.removed, Some(names[n - 1]))
        case Keep => prev
        case _ => SweepResult(prev.removed + [names[n - 1]], None)
  }

  /** The total size of the named files. */
  function SumSizes(names: seq<string>, files: map<string, Bytes>): nat
    requires forall n :: n in names ==> n in files
    decreases |names|
  {
    if names == [] then 0 else SumSizes(names[..|names| - 1], files) + |files[names[|names| - 1]]|
  }

  /** Sizes add up over a concatenation. */
  lemma {:induction false} SumSizesConcat(u: seq<string>, v: seq<string>, files: map<string, Bytes>)
    requires forall n :: n in u ==> n in files
    requires forall n :: n in v ==> n in files
    ensures SumSizes(u + v, files) == SumSizes(u, files) + SumSizes(v, files)
    decreases |v|
  {
    if v == [] {
      assert u + v == u;
    } else {
      var init := v[..|v| - 1];
      SumSizesConcat(u, init, files);
      assert (u + v)[..|u + v| - 1] == u + init;
    }
  }

  /** Taking the element at `j` out of a distinct sequence leaves a distinct sequence of the other elements. */
  lemma RemoveAt<T>(b: seq<T>, j: nat)
    requires Distinct(b) && j < |b|
    ensures b == b[..j] + [b[j]] + b[j + 1..]
    ensures Distinct(b[..j] + b[j + 1..])
    ensures Elements(b[..j] + b[j + 1..]) == Elements(b) - {b[j]}
  {
    var rest := b[..j] + b[j + 1..];
    forall i, k | 0 <= i < k < |rest| ensures rest[i] != rest[k] {
      var bi := if i < j then i else i + 1;
      var bk := if k < j then k else k + 1;
      assert rest[i] == b[bi] && rest[k] == b[bk];
    }
    forall y | y in Elements(b) - {b[j]} ensures y in Elements(rest) {
      var k :| 0 <= k < |b| && b[k] == y;
      if k < j { assert rest[k] == y; } else { assert rest[k - 1] == y; }
    }
    forall y | y in Elements(rest) ensures y in Elements(b) - {b[j]} {
      var k :| 0 <= k < |rest| && rest[k] == y;
      var bk := if k < j then k else k + 1;
      assert rest[k] == b[bk];
    }
  }

  /** Taking the file at `j` out of a listing takes its size out of the total. */
  lemma SumSizesRemoveAt(b: seq<string>, j: nat, files: map<string, Bytes>)
    requires j < |b| && forall n :: n in b ==> n in files
    ensures SumSizes(b, files) == SumSizes(b[..j] + b[j + 1..], files) + |files[b[j]]|
  {
    assert b == b[..j] + [b[j]] + b[j + 1..];
    SumSizesConcat(b[..j], [b[j]], files);
    SumSizesConcat(b[..j] + [b[j]], b[j + 1..], files);
    SumSizesConcat(b[..j], b[j + 1..], files);
    assert [b[j]][..0] == [];
  }

  /** The total size of a set of files does not depend on the order they are listed in. */
  lemma {:induction false} SumSizesPermutation(a: seq<string>, b: seq<string>, files: map<string, Bytes>)
    requires Distinct(a) && Distinct(b) && Elements(a) == Elements(b)
    requires forall n :: n in a ==> n in files
    ensures forall n :: n in b ==> n in files
    ensures SumSizes(a, files) == SumSizes(b, files)
    decreases |a|
  {
    assert forall n :: n in b ==> n in Elements(a);
    if a != [] {
      var x := a[|a| - 1];
      var init := a[..|a| - 1];
      assert x in Elements(b);
      var j :| 0 <= j < |b| && b[j] == x;
      var rest := b[..j] + b[j + 1..];
      RemoveAt(a, |a| - 1);
      RemoveAt(b, j);
      assert a[..|a| - 1] + a[|a|..] == init;
      SumSizesPermutation(init, rest, files);
      SumSizesRemoveAt(b, j, files);
    } else {
      DistinctCardinality(b);
      assert Elements(a) == {};
    }
  }

  /** How a run ends. */
  datatype RunOutcome =
    | NoLocalBackups                                   // no archive in the directory
    | NoDatabaseBackups                                // the table has no rows
    | Finished(backupsCleared: nat, bytesCleared: nat) // the totals the script reports
    | Aborted(file: string)                            // an exception while judging `file`

  datatype RunResult = RunResult(outcome: RunOutcome, files: map<string, Bytes>)

  /** A run over the candidate archives of `files`: early stops, then the sweep; deletions made before an abort stay made. */
  function Run(candidates: seq<string>, files: map<string, Bytes>, p: Policy): RunResult
    requires forall n :: n in candidates ==> n in files
  {
    if candidates == [] then RunResult(NoLocalBackups, files)
    else if p.records == [] then RunResult(NoDatabaseBackups, files)
    else
      var s := Sweep(candidates, Verdicts(candidates, files, p), |candidates|);
      var left := files - Elements(s.removed);
      match s.abortedAt
      case Some(name) => RunResult(Aborted(name), left)
      case None => RunResult(Finished(|s.removed|, SumSizes(s.removed, files)), left)
  }

  /** Once the sweep has aborted, the rest of the candidates are never looked at. */
  lemma {:induction false} SweepAbortSticks(names: seq<string>, ds: seq<Decision>, n: nat, m: nat)
    requires n <= m <= |names| == |ds|
    requires Sweep(names, ds, n).abortedAt.Some?
    ensures Sweep(names, ds, m) == Sweep(names, ds, n)
    decreases m
  {
    if n < m {
      SweepAbortSticks(names, ds, n, m - 1);
    }
  }

  /** The sweep deletes only candidates whose decision deletes them, in order and each at most once. */
  lemma {:induction false} SweepRemoved(names: seq<string>, ds: seq<Decision>, n: nat)
    requires n <= |names| == |ds| && Distinct(names)
    ensures var s := Sweep(names, ds, n);
      Distinct(s.removed) &&
      (forall x :: x in s.removed ==> x in names[..n]) &&
      forall i :: 0 <= i < n && names[i] in s.removed ==> Deletes(ds[i])
    decreases n
  {
    if n > 0 {
      SweepRemoved(names, ds, n - 1);
      assert forall x :: x in names[..n] <==> x in names[..n - 1] || x == names[n - 1];
      assert names[n - 1] !in names[..n - 1];
    }
  }

  /** The sweep aborts only at a candidate whose decision is `Abort`. */
  lemma {:induction false} SweepAborted(names: seq<string>, ds: seq<Decision>, n: nat)
    requires n <= |names| == |ds| && Distinct(names)
    ensures var s := Sweep(names, ds, n);
      (s.abortedAt.Some? ==> s.abortedAt.value in names[..n]) &&
      forall i :: 0 <= i < n && s.abortedAt == Some(names[i]) ==> ds[i] == Abort
    decreases n
  {
    if n > 0 {
      SweepAborted(names, ds, n - 1);
      assert forall x :: x in names[..n] <==> x in names[..n - 1] || x == names[n - 1];
      assert names[n - 1] !in names[..n - 1];
    }
  }

  /** A sweep that does not abort met no `Abort` decision and deleted every candidate whose decision deletes it. */
  lemma {:induction false} SweepComplete(names: seq<string>, ds: seq<Decision>, n: nat)
    requires n <= |names| == |ds|
    ensures var s := Sweep(names, ds, n);
      s.abortedAt.None? ==> forall i :: 0 <= i < n ==> ds[i] != Abort && (Deletes(ds[i]) ==> names[i] in s.removed)
    decreases n
  {
    if n > 0 {
      SweepComplete(names, ds, n - 1);
    }
  }

  /**
   * A sweep that aborts does so at the first candidate whose decision is
   * `Abort`, and by then it has deleted exactly the earlier candidates whose
   * decision deletes them.
   */
  lemma {:induction false} SweepAbortedFirst(names: seq<string>, ds: seq<Decision>, n: nat, i: nat)
    requires n <= |names| == |ds| && Distinct(names)
    requires i < n && Sweep(names, ds, n).abortedAt == Some(names[i])
    ensures ds[i] == Abort
    ensures forall j :: 0 <= j < i ==> ds[j] != Abort
    ensures Elements(Sweep(names, ds, n).removed) == set j | 0 <= j < i && Deletes(ds[j]) :: names[j]
    decreases n
  {
    var prev := Sweep(names, ds, n - 1);
    if prev.abortedAt.Some? {
      SweepAborted(names, ds, n - 1);
      var k :| 0 <= k < n - 1 && names[k] == prev.abortedAt.value;
      assert k == i;
      SweepAbortedFirst(names, ds, n - 1, i);
    } else {
      assert ds[n - 1] == Abort && names[n - 1] == names[i];
      assert i == n - 1;
      SweepRemoved(names, ds, n - 1);
      SweepComplete(names, ds, n - 1);
      var deleted := set j | 0 <= j < i && Deletes(ds[j]) :: names[j];
      forall x | x in Elements(prev.removed) ensures x in deleted {
        assert x in names[..n - 1];
        var j :| 0 <= j < n - 1 && names[..n - 1][j] == x;
        assert names[j] == x;
      }
    }
  }

  /** The sweep of a run, stated per file: what it deletes and where it aborts, in terms of the policy. */
  lemma SweepOfVerdicts(candidates: seq<string>, files: map<string, Bytes>, p: Policy)
    requires forall x :: x in candidates ==> x in files
    requires Distinct(candidates)
    ensures var s := Sweep(candidates, Verdicts(candidates, files, p), |candidates|);
      Distinct(s.removed) &&
      (forall n :: n in s.removed ==> n in candidates && Deletes(Decide(n, files[n], p))) &&
      (s.abortedAt.Some? ==> s.abortedAt.value in candidates && Decide(s.abortedAt.value, files[s.abortedAt.value], p) == Abort) &&
      (s.abortedAt.None? ==> forall n :: n in candidates ==> Decide(n, files[n], p) != Abort) &&
      (s.abortedAt.None? ==> forall n :: n in candidates && Deletes(Decide(n, files[n], p)) ==> n in s.removed)
  {
    var ds := Verdicts(candidates, files, p);
    SweepRemoved(candidates, ds, |candidates|);
    SweepAborted(candidates, ds, |candidates|);
    SweepComplete(candidates, ds, |candidates|);
    assert candidates[..|candidates|] == candidates;
    forall i | 0 <= i < |candidates| ensures ds[i] == Decide(candidates[i], files[candidates[i]], p) {
      VerdictAt(candidates, files, p, i);
    }
  }

  /**
   * Totals of a run that finishes: `backups_cleared` is the number of
   * candidates the policy deletes, `bytes_cleared` the sum of their sizes,
   * exactly those files are gone and every other file is unchanged.
   */
  lemma FinishedRunTotals(candidates: seq<string>, files: map<string, Bytes>, p: Policy)
    requires forall x :: x in candidates ==> x in files
    requires Distinct(candidates)
    requires Run(candidates, files, p).outcome.Finished?
    ensures var r := Run(candidates, files, p);
      var deleted := set n | n in candidates && Deletes(Decide(n, files[n], p));
      r.outcome.backupsCleared == |deleted| &&
      r.outcome.bytesCleared == SumSizes(Sweep(candidates, Verdicts(candidates, files, p), |candidates|).removed, files) &&
      r.files == files - deleted
  {
    var s := Sweep(candidates, Verdicts(candidates, files, p), |candidates|);
    SweepOfVerdicts(candidates, files, p);
    var deleted := set n | n in candidates && Deletes(Decide(n, files[n], p));
    assert Elements(s.removed) == deleted;
    DistinctCardinality(s.removed);
  }

  /** The freed bytes of a finished run are the sizes of the deleted files added up, in whatever order they are listed. */
  lemma FinishedRunBytes(candidates: seq<string>, files: map<string, Bytes>, p: Policy, order: seq<string>)
    requires forall x :: x in candidates ==> x in files
    requires Distinct(candidates)
    requires Run(candidates, files, p).outcome.Finished?
    requires Distinct(order) && Elements(order) == set n | n in candidates && Deletes(Decide(n, files[n], p))
    ensures forall x :: x in order ==> x in files
    ensures Run(candidates, files, p).outcome.bytesCleared == SumSizes(order, files)
  {
    var s := Sweep(candidates, Verdicts(candidates, files, p), |candidates|);
    SweepOfVerdicts(candidates, files, p);
    assert Elements(s.removed) == Elements(order);
    SumSizesPermutation(s.removed, order, files);
  }

  /**
   * A run that aborts at `candidates[i]` does so at the first candidate the
   * policy aborts on; every earlier candidate the policy deletes is gone, and
   * every other file, later candidates included, is untouched.
   */
  lemma AbortedRunDeletions(candidates: seq<string>, files: map<string, Bytes>, p: Policy, i: nat)
    requires forall x :: x in candidates ==> x in files
    requires Distinct(candidates)
    requires i < |candidates| && Run(candidates, files, p).outcome == Aborted(candidates[i])
    ensures Decide(candidates[i], files[candidates[i]], p) == Abort
    ensures forall j :: 0 <= j < i ==> Decide(candidates[j], files[candidates[j]], p) != Abort
    ensures Run(candidates, files, p).files
      == files - set j | 0 <= j < i && Deletes(Decide(candidates[j], files[candidates[j]], p)) :: candidates[j]
  {
    var ds := Verdicts(candidates, files, p);
    SweepAbortedFirst(candidates, ds, |candidates|, i);
    forall j | 0 <= j < |candidates| ensures ds[j] == Decide(candidates[j], files[candidates[j]], p) {
      VerdictAt(candidates, files, p, j);
    }
  }

  /** Whatever happens, entries that are not candidates, and candidates the policy keeps, are still there with the same content. */
  lemma RunKeepsOthers(candidates: seq<string>, files: map<string, Bytes>, p: Policy, n: string)
    requires forall x :: x in candidates ==> x in files
    requires Distinct(candidates)
    requires n in files && (n !in candidates || Decide(n, files[n], p) == Keep)
    ensures n in Run(candidates, files, p).files
    ensures Run(candidates, files, p).files[n] == files[n]
    ensures Run(candidates, files, p).files.Keys <= files.Keys
  {
    SweepOfVerdicts(candidates, files, p);
  }

  /** The sweep over candidates that are all kept deletes nothing and does not abort. */
  lemma {:induction false} SweepKeepsAll(names: seq<string>, ds: seq<Decision>, n: nat)
    requires n <= |names| == |ds|
    requires forall i :: 0 <= i < n ==> ds[i] == Keep
    ensures Sweep(names, ds, n) == SweepResult([], None)
    decreases n
  {
    if n > 0 {
      SweepKeepsAll(names, ds, n - 1);
    }
  }

  /**
   * Running the pass again, against the same rows and flag, on what a
   * finished run left behind deletes nothing: every archive left is one the
   * policy keeps.
   */
  lemma SecondRunDeletesNothing(candidates: seq<string>, files: map<string, Bytes>, p: Policy, again: seq<string>)
    requires Distinct(candidates)
    requires forall x :: x in candidates <==> x in files && IsBackupArchive(x)
    requires Run(candidates, files, p).outcome.Finished?
    requires forall x :: x in again <==> x in Run(candidates, files, p).files && IsBackupArchive(x)
    ensures Run(again, Run(candidates, files, p).files, p).files == Run(candidates, files, p).files
    ensures Run(again, Run(candidates, files, p).files, p).outcome in {NoLocalBackups, Finished(0, 0)}
  {
    var left := Run(candidates, files, p).files;
    SweepOfVerdicts(candidates, files, p);
    var ds := Verdicts(again, left, p);
    forall i | 0 <= i < |again| ensures ds[i] == Keep {
      assert again[i] in again && again[i] in candidates;
      VerdictAt(again, left, p, i);
    }
    SweepKeepsAll(again, ds, |again|);
    var none: seq<string> := [];
    assert Elements(none) == {};
  }

  predicate PlainName(stem: string) {
    stem != [] && '/' !in stem && '.' !in stem
  }

  /** The records of the scenario below: a failed row for `y` and a successful row for `z` that records `z`'s digest. */
  function ScenarioRecords(y: string, z: string, digest: string): seq<BackupRecord> {
    [BackupRecord(y, Some(0), None), BackupRecord(z, Some(1), Some("sha1:" + digest))]
  }

  lemma ScenarioOrphan(x: string, y: string, z: string, d: string, a: Bytes, p: Policy)
    requires PlainName(x) && x != y && x != z
    requires p.records == ScenarioRecords(y, z, d)
    ensures Decide(x + ".tar.gz", a, p) == DeleteOrphan
  {
    DeriveIdPlainName(x);
    OrphanIsDeleted(x + ".tar.gz", a, p);
  }

  lemma ScenarioFailed(y: string, z: string, d: string, b: Bytes, p: Policy)
    requires PlainName(y) && p.records == ScenarioRecords(y, z, d)
    ensures Decide(y + ".zip", b, p) == DeleteFailed
  {
    DeriveIdPlainName(y);
    FailedIsDeleted(y + ".zip", b, p, 0);
  }

  lemma ScenarioKept(y: string, z: string, c: Bytes, p: Policy)
    requires PlainName(z) && y != z && p.checkSha1 && ':' !in p.sha1(c)
    requires p.records == ScenarioRecords(y, z, p.sha1(c))
    ensures Decide(z + ".zip", c, p) == Keep
  {
    DeriveIdPlainName(z);
    assert "sha1:" + p.sha1(c) == "sha1" + [':'] + p.sha1(c) + [];
    CheckedChecksum(z + ".zip", c, p, 1, "sha1", p.sha1(c), []);
  }

  lemma SweepOfThree(na: string, nb: string, nc: string, da: Decision, db: Decision, dc: Decision)
    requires Deletes(da) && Deletes(db) && dc == Keep
    ensures Sweep([na, nb, nc], [da, db, dc], 3) == SweepResult([na, nb], None)
  {
    var names, ds := [na, nb, nc], [da, db, dc];
    assert Sweep(names, ds, 1) == SweepResult([na], None);
    assert [na] + [nb] == [na, nb];
    assert Sweep(names, ds, 2) == SweepResult([na, nb], None);
  }

  lemma SumSizesOfTwo(na: string, nb: string, files: map<string, Bytes>)
    requires na in files && nb in files
    ensures SumSizes([na, nb], files) == |files[na]| + |files[nb]|
  {
    assert [na, nb][..1] == [na] && [na][..0] == [];
    assert SumSizes([na], files) == |files[na]|;
  }

  lemma ElementsOfTwo<T>(x: T, y: T)
    ensures Elements([x, y]) == {x, y}
  {
    assert [x, y][0] == x && [x, y][1] == y;
  }

  lemma RemoveTwoOfThree<K, V>(ka: K, kb: K, kc: K, a: V, b: V, c: V)
    requires ka != kb && ka != kc && kb != kc
    ensures map[ka := a, kb := b, kc := c] - {ka, kb} == map[kc := c]
  {
    var left := map[ka := a, kb := b, kc := c] - {ka, kb};
    assert left.Keys == {kc};
  }

  lemma VerdictsOfThree(na: string, nb: string, nc: string, files: map<string, Bytes>, p: Policy)
    requires na in files && nb in files && nc in files
    ensures Verdicts([na, nb, nc], files, p) == [Decide(na, files[na], p), Decide(nb, files[nb], p), Decide(nc, files[nc], p)]
  {
    var ds := Verdicts([na, nb, nc], files, p);
    assert ds[0] == Decide(na, files[na], p) && ds[1] == Decide(nb, files[nb], p) && ds[2] == Decide(nc, files[nc], p);
  }

  /** A run past the early stops whose sweep does not abort reports the sweep's totals. */
  lemma FinishedRun(candidates: seq<string>, files: map<string, Bytes>, p: Policy, ds: seq<Decision>, removed: seq<string>)
    requires candidates != [] && p.records != [] && forall x :: x in candidates ==> x in files
    requires ds == Verdicts(candidates, files, p)
    requires Sweep(candidates, ds, |candidates|) == SweepResult(removed, None)
    ensures Run(candidates, files, p) == RunResult(Finished(|removed|, SumSizes(removed, files)), files - Elements(removed))
  {
  }

  /** A run past the early stops whose sweep aborts reports the file it aborted at, with what was deleted before it gone. */
  lemma AbortedRun(candidates: seq<string>, files: map<string, Bytes>, p: Policy, ds: seq<Decision>, removed: seq<string>, name: string)
    requires candidates != [] && p.records != [] && forall x :: x in candidates ==> x in files
    requires ds == Verdicts(candidates, files, p)
    requires Sweep(candidates, ds, |candidates|) == SweepResult(removed, Some(name))
    ensures Run(candidates, files, p) == RunResult(Aborted(name), files - Elements(removed))
  {
  }

  /** Three candidates judged delete, delete, keep: the run deletes the first two. */
  lemma RunOfThree(na: string, nb: string, nc: string, a: Bytes, b: Bytes, c: Bytes, p: Policy)
    requires na != nb && na != nc && nb != nc && p.records != []
    requires Deletes(Decide(na, a, p)) && Deletes(Decide(nb, b, p)) && Decide(nc, c, p) == Keep
    ensures Run([na, nb, nc], map[na := a, nb := b, nc := c], p) == RunResult(Finished(2, |a| + |b|), map[nc := c])
  {
    var files := map[na := a, nb := b, nc := c];
    assert files[na] == a && files[nb] == b && files[nc] == c;
    VerdictsOfThree(na, nb, nc, files, p);
    var ds := [Decide(na, a, p), Decide(nb, b, p), Decide(nc, c, p)];
    SweepOfThree(na, nb, nc, ds[0], ds[1], ds[2]);
    FinishedRun([na, nb, nc], files, p, ds, [na, nb]);
    SumSizesOfTwo(na, nb, files);
    ElementsOfTwo(na, nb);
    RemoveTwoOfThree(na, nb, nc, a, b, c);
    assert |[na, nb]| == 2;
  }

  /**
   * An orphan `x.tar.gz`, a `y.zip` whose row failed and a `z.zip` whose
   * successful row records its digest as `sha1:<digest>`, with hash checking
   * on: the run deletes two archives, frees the size of the first two, and
   * leaves only `z.zip`.
   */
  lemma ThreeArchiveRun(x: string, y: string, z: string, a: Bytes, b: Bytes, c: Bytes, sha1: Bytes -> string)
    requires PlainName(x) && PlainName(y) && PlainName(z)
    requires x != y && x != z && y != z
    requires ':' !in sha1(c)
    ensures var files := map[x + ".tar.gz" := a, y + ".zip" := b, z + ".zip" := c];
      Run([x + ".tar.gz", y + ".zip", z + ".zip"], files, Policy(ScenarioRecords(y, z, sha1(c)), true, sha1))
        == RunResult(Finished(2, |a| + |b|), map[z + ".zip" := c])
  {
    var na, nb, nc := x + ".tar.gz", y + ".zip", z + ".zip";
    assert na != nb && na != nc by {
      assert na[|na| - 1] == 'z' && nb[|nb| - 1] == 'p' && nc[|nc| - 1] == 'p';
    }
    assert nb != nc by {
      assert nb[..|y|] == y && nc[..|z|] == z;
    }
    var p := Policy(ScenarioRecords(y, z, sha1(c)), true, sha1);
    ScenarioOrphan(x, y, z, sha1(c), a, p);
    ScenarioFailed(y, z, sha1(c), b, p);
    ScenarioKept(y, z, c, p);
    RunOfThree(na, nb, nc, a, b, c, p);
  }

  /** One settled candidate that does not abort: the sweep, the files left and the totals advance together. */
  lemma SettleStep(names: seq<string>, ds: seq<Decision>, files: map<string, Bytes>, i: nat, removed: seq<string>)
    requires i < |names| == |ds| && Distinct(names) && forall n :: n in names ==> n in files
    requires Sweep(names, ds, i) == SweepResult(removed, None)
    requires forall n :: n in removed ==> n in names[..i]
    requires ds[i] != Abort
    ensures var after := if Deletes(ds[i]) then removed + [names[i]] else removed;
      Sweep(names, ds, i + 1) == SweepResult(after, None) &&
      (forall n :: n in after ==> n in names[..i + 1]) &&
      files - Elements(after) == (if Deletes(ds[i]) then (files - Elements(removed)) - {names[i]} else files - Elements(removed)) &&
      |after| == |removed| + (if Deletes(ds[i]) then 1 else 0) &&
      SumSizes(after, files) == SumSizes(removed, files) + (if Deletes(ds[i]) then |files[names[i]]| else 0)
  {
    assert forall n :: n in names[..i + 1] <==> n in names[..i] || n == names[i];
    if Deletes(ds[i]) {
      ClearedOne(removed, names[i], files);
    }
  }

  /** Bookkeeping for one more deleted file. */
  lemma ClearedOne(removed: seq<string>, name: string, files: map<string, Bytes>)
    requires forall n :: n in removed ==> n in files
    requires name in files
    ensures files - Elements(removed + [name]) == (files - Elements(removed)) - {name}
    ensures SumSizes(removed + [name], files) == SumSizes(removed, files) + |files[name]|
  {
    assert (removed + [name])[..|removed|] == removed;
    assert Elements(removed + [name]) == Elements(removed) + {name};
  }

  /**
   * The body of the reconciliation loop for one archive: scan the rows for
   * the first one naming it and apply the policy; a deleted file has its
   * size added to the totals before it is removed. `aborted` is the
   * exception raised when the checksum of the row has no digest.
   */
  method SettleBackup(dir: BackupDirectory, name: string, records: seq<BackupRecord>, checkSha1: bool, sha1: Bytes -> string,
                      bytesCleared: nat, backupsCleared: nat)
    returns (aborted: bool, bytesAfter: nat, backupsAfter: nat)
    requires name in dir.files
    modifies dir
    ensures var d := Decide(name, old(dir.files)[name], Policy(records, checkSha1, sha1));
      aborted == (d == Abort) &&
      dir.files == (if Deletes(d) then old(dir.files) - {name} else old(dir.files)) &&
      backupsAfter == backupsCleared + (if Deletes(d) then 1 else 0) &&
      bytesAfter == bytesCleared + (if Deletes(d) then |old(dir.files)[name]| else 0)
  {
    aborted, bytesAfter, backupsAfter := false, bytesCleared, backupsCleared;
    var id := DeriveId(name);
    var found := false;
    var j := 0;
    while j < |records|
      invariant 0 <= j <= |records|
      invariant forall k :: 0 <= k < j ==> records[k].id != id
      invariant dir.files == old(dir.files)
      invariant bytesAfter == bytesCleared && backupsAfter == backupsCleared
      invariant !found
    {
      if records[j].id == id {
        assert FirstMatch(records, id) == Some(j);
        found := true;
        if !Truthy(records[j].successful) {
          var size := dir.Size(name);
          bytesAfter := bytesAfter + size;
          backupsAfter := backupsAfter + 1;
          dir.Remove(name);
        } else if checkSha1 {
          var expected := RecordedDigest(records[j].checksum);
          if expected.None? {
            return true, bytesAfter, backupsAfter;
          }
          var content := dir.Read(name);
          var digest := Hasher.FileSha1(content, sha1);
          if expected.value != digest {
            var size := dir.Size(name);
            bytesAfter := bytesAfter + size;
            backupsAfter := backupsAfter + 1;
            dir.Remove(name);
          }
        }
        break;
      }
      j := j + 1;
    }
    if !found {
      assert FirstMatch(records, id) == None;
      var size := dir.Size(name);
      bytesAfter := bytesAfter + size;
      backupsAfter := backupsAfter + 1;
      dir.Remove(name);
    }
  }

  /**
   * One turn of the reconciliation loop, on the `i`-th candidate: settles
   * it and keeps the account of the sweep (`removed`, the totals) in step.
   */
  method SettleNext(dir: BackupDirectory, candidates: seq<string>, i: nat, records: seq<BackupRecord>, checkSha1: bool, sha1: Bytes -> string,
                    ghost files0: map<string, Bytes>, ghost ds: seq<Decision>, ghost removed: seq<string>,
                    bytesCleared: nat, backupsCleared: nat)
    returns (aborted: bool, bytesAfter: nat, backupsAfter: nat, ghost removedAfter: seq<string>)
    requires i < |candidates| && Distinct(candidates) && forall n :: n in candidates ==> n in files0
    requires ds == Verdicts(candidates, files0, Policy(records, checkSha1, sha1))
    requires dir.files == files0 - Elements(removed)
    requires Sweep(candidates, ds, i) == SweepResult(removed, None)
    requires forall n :: n in removed ==> n in candidates[..i]
    requires backupsCleared == |removed| && bytesCleared == SumSizes(removed, files0)
    modifies dir
    ensures aborted ==>
      (removedAfter == removed && dir.files == files0 - Elements(removed) &&
       Sweep(candidates, ds, |candidates|) == SweepResult(removed, Some(candidates[i])))
    ensures !aborted ==>
      (dir.files == files0 - Elements(removedAfter) &&
       Sweep(candidates, ds, i + 1) == SweepResult(removedAfter, None) &&
       (forall n :: n in removedAfter ==> n in candidates[..i + 1]) &&
       backupsAfter == |removedAfter| && bytesAfter == SumSizes(removedAfter, files0))
  {
    var name := candidates[i];
    assert name !in removed;
    VerdictAt(candidates, files0, Policy(records, checkSha1, sha1), i);
    removedAfter := removed;
    aborted, bytesAfter, backupsAfter := SettleBackup(dir, name, records, checkSha1, sha1, bytesCleared, backupsCleared);
    if aborted {
      SweepAbortSticks(candidates, ds, i + 1, |candidates|);
      return;
    }
    SettleStep(candidates, ds, files0, i, removed);
    if Deletes(ds[i]) {
      removedAfter := removed + [name];
    }
  }

  /**
   * The loop of the reconciliation pass, over a non-empty list of distinct
   * candidates and a non-empty table: every archive is settled in order,
   * the totals are kept, and the first exception ends the pass.
   */
  method SettleAll(dir: BackupDirectory, candidates: seq<string>, records: seq<BackupRecord>, checkSha1: bool, sha1: Bytes -> string)
    returns (outcome: RunOutcome)
    requires candidates != [] && records != []
    requires Distinct(candidates) && forall n :: n in candidates ==> n in dir.files
    modifies dir
    ensures RunResult(outcome, dir.files) == Run(candidates, old(dir.files), Policy(records, checkSha1, sha1))
  {
    ghost var files0 := dir.files;
    ghost var p := Policy(records, checkSha1, sha1);
    ghost var ds := Verdicts(candidates, files0, p);
    var bytesCleared: nat := 0;
    var backupsCleared: nat := 0;
    ghost var removed: seq<string> := [];
    var i := 0;
    while i < |candidates|
      invariant 0 <= i <= |candidates|
      invariant dir.files == files0 - Elements(removed)
      invariant Sweep(candidates, ds, i) == SweepResult(removed, None)
      invariant forall n :: n in removed ==> n in candidates[..i]
      invariant backupsCleared == |removed| && bytesCleared == SumSizes(removed, files0)
    {
      var aborted;
      aborted, bytesCleared, backupsCleared, removed :=
        SettleNext(dir, candidates, i, records, checkSha1, sha1, files0, ds, removed, bytesCleared, backupsCleared);
      if aborted {
        AbortedRun(candidates, files0, p, ds, removed, candidates[i]);
        return Aborted(candidates[i]);
      }
      i := i + 1;
    }
    assert i == |candidates|;
    FinishedRun(candidates, files0, p, ds, removed);
    outcome := Finished(backupsCleared, bytesCleared);
  }

  /**
   * The reconciliation pass of the script. The listing is filtered to
   * archives; the run stops early when there are none or when the table is
   * empty; otherwise every archive is settled in listing order.
   */
  method ReconcileBackups(dir: BackupDirectory, records: seq<BackupRecord>, checkSha1: bool, sha1: Bytes -> string)
    returns (candidates: seq<string>, outcome: RunOutcome)
    modifies dir
    ensures Distinct(candidates)
    ensures forall n :: n in candidates <==> n in old(dir.files) && IsBackupArchive(n)
    ensures RunResult(outcome, dir.files) == Run(candidates, old(dir.files), Policy(records, checkSha1, sha1))
  {
    var listing := dir.List();
    candidates := Candidates(listing);
    if candidates == [] {
      return candidates, NoLocalBackups;
    }
    if records == [] {
      return candidates, NoDatabaseBackups;
    }
    outcome := SettleAll(dir, candidates, records, checkSha1, sha1);
  }
}
