/**
  The session bootstrap reconciler `init_packages`: it registers every
  declared bucket the remote service does not yet know, then (re)creates
  every declared package, deleting a remote package of the same name first.

  The definition files are inputs: the lines of the bucket file, and the
  package files as (file name, body) pairs in the order the directory
  listing yields them.
 */
module Reconcile {
  import opened Wrappers
  import opened Tokens
  import opened Paths
  import opened Buckets
  import opened Remote

  /** The registration call for a parsed bucket definition. */
  function RegisterCall(d: BucketDef): Call {
    Register(d.name, d.region, d.accessKey, d.secretKey)
  }

  /** The calls one bucket line causes, against the bucket names `remote` listed before the pass. */
  function LineCalls(remote: set<string>, line: string): seq<Call> {
    match ParseLine(line)
    case None => []
    case Some(d) => if d.name in remote then [] else [RegisterCall(d)]
  }

  /** The calls the bucket pass makes over `lines`, all against the one listing `remote`. */
  function BucketCalls(remote: set<string>, lines: seq<string>): seq<Call>
    decreases |lines|
  {
    if lines == [] then []
    else BucketCalls(remote, lines[..|lines| - 1]) + LineCalls(remote, lines[|lines| - 1])
  }

  /** The bucket names one line declares (none for a blank line). */
  function LineNames(line: string): set<string> {
    match ParseLine(line)
    case None => {}
    case Some(d) => {d.name}
  }

  /** The bucket names the bucket file declares. */
  function DeclaredBuckets(lines: seq<string>): set<string>
    decreases |lines|
  {
    if lines == [] then {}
    else DeclaredBuckets(lines[..|lines| - 1]) + LineNames(lines[|lines| - 1])
  }

  /** The calls one package file causes, against the package names `remote` listed before the pass. */
  function FileCalls(remote: set<string>, file: (string, string)): seq<Call> {
    var name := PackageName(file.0);
    (if name in remote then [DeletePkg(name)] else []) + [CreatePkg(name, file.1)]
  }

  /** The calls the package pass makes over `files`, all against the one listing `remote`. */
  function PackageCalls(remote: set<string>, files: seq<(string, string)>): seq<Call>
    decreases |files|
  {
    if files == [] then []
    else PackageCalls(remote, files[..|files| - 1]) + FileCalls(remote, files[|files| - 1])
  }

  /** The package names the package files declare. */
  function DeclaredPackages(files: seq<(string, string)>): set<string>
    decreases |files|
  {
    if files == [] then {}
    else DeclaredPackages(files[..|files| - 1]) + {PackageName(files[|files| - 1].0)}
  }

  /** The remote packages after the files, in order, have each been (re)created over `m`. */
  function Overlay(m: map<string, string>, files: seq<(string, string)>): map<string, string>
    decreases |files|
  {
    if files == [] then m
    else
      var f := files[|files| - 1];
      Overlay(m, files[..|files| - 1])[PackageName(f.0) := f.1]
  }

  lemma OverlayStep(m: map<string, string>, done: seq<(string, string)>, f: (string, string))
    ensures Overlay(m, done + [f]) == Overlay(m, done)[PackageName(f.0) := f.1]
    ensures (Overlay(m, done) - {PackageName(f.0)})[PackageName(f.0) := f.1] == Overlay(m, done)[PackageName(f.0) := f.1]
  {
    assert (done + [f])[..|done|] == done;
  }

  lemma PackageCallsStep(remote: set<string>, done: seq<(string, string)>, f: (string, string))
    ensures PackageCalls(remote, done + [f]) == PackageCalls(remote, done) + FileCalls(remote, f)
  {
    assert (done + [f])[..|done|] == done;
  }

  /**
    `init_packages`: the bucket pass, then the package pass. Each pass fetches
    its listing once, before its loop, and does not refresh it.
   */
  method InitPackages(client: Client, bucketLines: seq<string>, packageFiles: seq<(string, string)>)
    modifies client
    ensures client.log ==
      old(client.log) + BucketCalls(old(client.buckets), bucketLines)
                      + PackageCalls(old(client.packages).Keys, packageFiles)
    ensures client.buckets == old(client.buckets) + DeclaredBuckets(bucketLines)
    ensures client.packages == Overlay(old(client.packages), packageFiles)
  {
    RegisterBuckets(client, bucketLines);
    RegisterPackages(client, packageFiles);
  }

  /** The bucket half of `init_packages`: register each declared bucket missing from the listing. */
  method RegisterBuckets(client: Client, bucketLines: seq<string>)
    modifies client
    ensures client.log == old(client.log) + BucketCalls(old(client.buckets), bucketLines)
    ensures client.buckets == old(client.buckets) + DeclaredBuckets(bucketLines)
    ensures client.packages == old(client.packages)
  {
    var buckets := client.BucketsList();
    for i := 0 to |bucketLines|
      invariant buckets == old(client.buckets)
      invariant client.buckets == old(client.buckets) + DeclaredBuckets(bucketLines[..i])
      invariant client.packages == old(client.packages)
      invariant client.log == old(client.log) + BucketCalls(buckets, bucketLines[..i])
    {
      assert bucketLines[..i + 1][..i] == bucketLines[..i];
      var values := Split(bucketLines[i]);
      if |values| < 1 {
        continue;
      }
      var name := values[0];
      var region := if |values| >= 2 then Some(values[1]) else None;
      var accessKey := if |values| >= 3 then Some(values[2]) else None;
      var secretKey := if |values| >= 4 then Some(values[3]) else None;
      assert ParseLine(bucketLines[i]) == Some(BucketDef(name, region, accessKey, secretKey));
      if name !in buckets {
        client.BucketsRegister(name, region, accessKey, secretKey);
      }
    }
    assert bucketLines[..|bucketLines|] == bucketLines;
  }

  /** The package half of `init_packages`: (re)create each package file, deleting a listed package first. */
  method RegisterPackages(client: Client, packageFiles: seq<(string, string)>)
    modifies client
    ensures client.log == old(client.log) + PackageCalls(old(client.packages).Keys, packageFiles)
    ensures client.buckets == old(client.buckets)
    ensures client.packages == Overlay(old(client.packages), packageFiles)
  {
    var packages := client.PackagesListNames();
    for i := 0 to |packageFiles|
      invariant packages == old(client.packages).Keys
      invariant client.buckets == old(client.buckets)
      invariant client.packages == Overlay(old(client.packages), packageFiles[..i])
      invariant client.log == old(client.log) + PackageCalls(packages, packageFiles[..i])
    {
      ghost var done := packageFiles[..i];
      assert packageFiles[..i + 1] == done + [packageFiles[i]];
      OverlayStep(old(client.packages), done, packageFiles[i]);
      PackageCallsStep(packages, done, packageFiles[i]);
      var (filename, body) := packageFiles[i];
      var name := PackageName(filename);
      if name in packages {
        client.PackagesDelete(name);
      }
      client.PackagesCreate(name, body);
    }
    assert packageFiles[..|packageFiles|] == packageFiles;
  }
}
