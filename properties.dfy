/**
  What `init_packages` promises, stated over the call sequences and final
  state that the reconciler methods are proved to produce.
 */
module Properties {
  import opened Wrappers
  import opened Tokens
  import opened Paths
  import opened Buckets
  import opened Remote
  import opened Reconcile

  datatype Kind = RegisterKind | DeleteKind | CreateKind

  function KindOf(c: Call): Kind {
    match c
    case Register(_, _, _, _) => RegisterKind
    case DeletePkg(_) => DeleteKind
    case CreatePkg(_, _) => CreateKind
  }

  /** How many calls of kind `k` on the name `n` the sequence holds. */
  function Tally(calls: seq<Call>, k: Kind, n: string): nat
    decreases |calls|
  {
    if calls == [] then 0
    else
      var c := calls[|calls| - 1];
      Tally(calls[..|calls| - 1], k, n) + (if KindOf(c) == k && c.name == n then 1 else 0)
  }

  /** How many lines of the bucket file declare the bucket `n`. */
  function Occurrences(lines: seq<string>, n: string): nat
    decreases |lines|
  {
    if lines == [] then 0
    else Occurrences(lines[..|lines| - 1], n) + (if n in LineNames(lines[|lines| - 1]) then 1 else 0)
  }

  /** How many package files derive the package name `n`. */
  function FileCount(files: seq<(string, string)>, n: string): nat
    decreases |files|
  {
    if files == [] then 0
    else FileCount(files[..|files| - 1], n) + (if PackageName(files[|files| - 1].0) == n then 1 else 0)
  }

  predicate DistinctNames(files: seq<(string, string)>) {
    forall i, j :: 0 <= i < j < |files| ==> PackageName(files[i].0) != PackageName(files[j].0)
  }

  // ---------------------------------------------------------------- buckets

  lemma {:induction false} TallyAppend(a: seq<Call>, b: seq<Call>, k: Kind, n: string)
    ensures Tally(a + b, k, n) == Tally(a, k, n) + Tally(b, k, n)
    decreases |b|
  {
    if b != [] {
      var b' := b[..|b| - 1];
      assert (a + b)[..|a + b| - 1] == a + b';
      TallyAppend(a, b', k, n);
    } else {
      assert a + b == a;
    }
  }

  /** The bucket calls follow the file's line order: the calls for `a + b` are those for `a`, then for `b`. */
  lemma {:induction false} BucketCallsAppend(remote: set<string>, a: seq<string>, b: seq<string>)
    ensures BucketCalls(remote, a + b) == BucketCalls(remote, a) + BucketCalls(remote, b)
    ensures DeclaredBuckets(a + b) == DeclaredBuckets(a) + DeclaredBuckets(b)
    decreases |b|
  {
    if b != [] {
      var b' := b[..|b| - 1];
      assert (a + b)[..|a + b| - 1] == a + b';
      BucketCallsAppend(remote, a, b');
    } else {
      assert a + b == a;
    }
  }

  /** A line with no tokens makes no call and declares no bucket, wherever it stands in the file. */
  lemma {:induction false} BlankLineIssuesNothing(remote: set<string>, a: seq<string>, line: string, b: seq<string>)
    requires AllSpace(line)
    ensures BucketCalls(remote, a + [line] + b) == BucketCalls(remote, a + b)
    ensures DeclaredBuckets(a + [line] + b) == DeclaredBuckets(a + b)
  {
    var front := a + [line];
    assert a + [line] + b == front + b;
    BlankLineAlone(remote, line);
    BucketCallsAppend(remote, a, [line]);
    assert BucketCalls(remote, front) == BucketCalls(remote, a);
    assert DeclaredBuckets(front) == DeclaredBuckets(a);
    BucketCallsAppend(remote, front, b);
    BucketCallsAppend(remote, a, b);
  }

  lemma BlankLineAlone(remote: set<string>, line: string)
    requires AllSpace(line)
    ensures BucketCalls(remote, [line]) == [] && DeclaredBuckets([line]) == {}
  {
    assert ParseLine(line) == None;
    assert [line][..0] == [];
  }

  /**
    A line's own calls, wherever it stands in the file: a line with a first
    token absent from the listing contributes exactly one registration, with
    that name and the line's region, access key and secret key (or `None`);
    any other line contributes nothing.
   */
  lemma LineRegisters(remote: set<string>, a: seq<string>, line: string, b: seq<string>)
    ensures var values := Split(line);
      BucketCalls(remote, a + [line] + b) ==
        BucketCalls(remote, a) +
        (if |values| >= 1 && values[0] !in remote
         then [Register(values[0], Nth(values, 1), Nth(values, 2), Nth(values, 3))]
         else []) +
        BucketCalls(remote, b)
  {
    BucketCallsAppend(remote, a, [line]);
    BucketCallsAppend(remote, a + [line], b);
    assert [line][..0] == [];
  }

  /**
    Every bucket call is a registration of a declared bucket that was absent
    from the listing taken before the pass.
   */
  lemma {:induction false} BucketCallsRegisterAbsent(remote: set<string>, lines: seq<string>)
    ensures forall c :: c in BucketCalls(remote, lines) ==>
      c.Register? && c.name !in remote && c.name in DeclaredBuckets(lines)
    decreases |lines|
  {
    if lines != [] {
      BucketCallsRegisterAbsent(remote, lines[..|lines| - 1]);
    }
  }

  /**
    A declared bucket present in the listing gets no registration; an absent
    one gets one registration per line that declares it (the listing is not
    refreshed by the pass's own registrations).
   */
  lemma {:induction false} RegistrationsPerName(remote: set<string>, lines: seq<string>, n: string)
    ensures Tally(BucketCalls(remote, lines), RegisterKind, n) == if n in remote then 0 else Occurrences(lines, n)
    decreases |lines|
  {
    if lines != [] {
      var init := lines[..|lines| - 1];
      var last := lines[|lines| - 1];
      RegistrationsPerName(remote, init, n);
      TallyAppend(BucketCalls(remote, init), LineCalls(remote, last), RegisterKind, n);
      var one := LineCalls(remote, last);
      if one != [] {
        assert one[..0] == [];
      }
    }
  }

  /** Idempotence: against a listing that holds every declared bucket, the bucket pass makes no call. */
  lemma {:induction false} BucketsIdempotent(remote: set<string>, lines: seq<string>)
    requires DeclaredBuckets(lines) <= remote
    ensures BucketCalls(remote, lines) == []
    decreases |lines|
  {
    if lines != [] {
      BucketsIdempotent(remote, lines[..|lines| - 1]);
    }
  }

  /** A second bucket pass, against the buckets the first left behind, makes no call. */
  lemma SecondBucketPassIsSilent(remote: set<string>, lines: seq<string>)
    ensures BucketCalls(remote + DeclaredBuckets(lines), lines) == []
  {
    BucketsIdempotent(remote + DeclaredBuckets(lines), lines);
  }

  /**
    The bucket file `s3bucket us-east-1` against an empty listing gives exactly
    one registration, whether or not the line keeps the newline `readlines` leaves on it.
   */
  lemma SingleBucketExample()
    ensures BucketCalls({}, ["s3bucket us-east-1"]) == [Register("s3bucket", Some("us-east-1"), None, None)]
    ensures BucketCalls({}, ["s3bucket us-east-1\n"]) == [Register("s3bucket", Some("us-east-1"), None, None)]
  {
    var line := "s3bucket us-east-1";
    assert "" + line + "" == line;
    ExampleLine("", "");
    assert AllSpace("\n") by { assert IsSpace("\n"[0]); }
    assert "" + line + "\n" == "s3bucket us-east-1\n";
    ExampleLine("", "\n");
  }

  lemma ExampleLine(lead: string, trail: string)
    requires AllSpace(lead) && AllSpace(trail)
    ensures BucketCalls({}, [lead + "s3bucket us-east-1" + trail]) == [Register("s3bucket", Some("us-east-1"), None, None)]
  {
    var toks := ["s3bucket", "us-east-1"];
    var ws := [lead, " ", trail];
    var line := lead + "s3bucket us-east-1" + trail;
    assert Spaced(ws[2..], toks[2..]) == trail;
    assert Spaced(ws[1..], toks[1..]) == " " + "us-east-1" + trail;
    assert line == Spaced(ws, toks);
    SplitSpaced(ws, toks);
    assert [line][..0] == [];
  }

  // --------------------------------------------------------------- packages

  /** The package calls follow the given file order. */
  lemma {:induction false} PackageCallsAppend(remote: set<string>, a: seq<(string, string)>, b: seq<(string, string)>)
    ensures PackageCalls(remote, a + b) == PackageCalls(remote, a) + PackageCalls(remote, b)
    decreases |b|
  {
    if b != [] {
      var b' := b[..|b| - 1];
      assert (a + b)[..|a + b| - 1] == a + b';
      PackageCallsAppend(remote, a, b');
    } else {
      assert a + b == a;
    }
  }

  /**
    A file's own calls, wherever it stands in the list: a delete of its
    derived name if that name was listed, then a create of that name with
    the file's body.
   */
  lemma FileCreates(remote: set<string>, a: seq<(string, string)>, f: (string, string), b: seq<(string, string)>)
    ensures var name := PackageName(f.0);
      PackageCalls(remote, a + [f] + b) ==
        PackageCalls(remote, a) +
        (if name in remote then [DeletePkg(name)] else []) + [CreatePkg(name, f.1)] +
        PackageCalls(remote, b)
  {
    var front := a + [f];
    assert a + [f] + b == front + b;
    assert [f][..0] == [];
    assert PackageCalls(remote, [f]) == FileCalls(remote, f);
    PackageCallsAppend(remote, a, [f]);
    PackageCallsAppend(remote, front, b);
  }

  /**
    Per package name: one create per file that derives it, and one delete per
    such file exactly when the name was listed before the pass; never a
    bucket registration.
   */
  lemma {:induction false} PackageCallsPerName(remote: set<string>, files: seq<(string, string)>, n: string)
    ensures Tally(PackageCalls(remote, files), CreateKind, n) == FileCount(files, n)
    ensures Tally(PackageCalls(remote, files), DeleteKind, n) == if n in remote then FileCount(files, n) else 0
    ensures Tally(PackageCalls(remote, files), RegisterKind, n) == 0
    decreases |files|
  {
    if files != [] {
      var init := files[..|files| - 1];
      var f := files[|files| - 1];
      PackageCallsPerName(remote, init, n);
      var one := FileCalls(remote, f);
      forall k ensures Tally(PackageCalls(remote, files), k, n) == Tally(PackageCalls(remote, init), k, n) + Tally(one, k, n) {
        TallyAppend(PackageCalls(remote, init), one, k, n);
      }
      var name := PackageName(f.0);
      assert FileCount(files, n) == FileCount(init, n) + (if name == n then 1 else 0);
      if name in remote {
        assert one == [DeletePkg(name), CreatePkg(name, f.1)];
        assert one[..1] == [DeletePkg(name)];
        assert one[..1][..0] == [];
        assert Tally(one[..1], CreateKind, n) == 0;
        assert Tally(one[..1], DeleteKind, n) == if name == n then 1 else 0;
        assert Tally(one[..1], RegisterKind, n) == 0;
        assert Tally(one, CreateKind, n) == if name == n then 1 else 0;
        assert Tally(one, DeleteKind, n) == if name == n then 1 else 0;
        assert Tally(one, RegisterKind, n) == 0;
      } else {
        assert one == [CreatePkg(name, f.1)];
        assert one[..0] == [];
        assert Tally(one, CreateKind, n) == if name == n then 1 else 0;
        assert Tally(one, DeleteKind, n) == 0;
        assert Tally(one, RegisterKind, n) == 0;
      }
    }
  }

  /** Every package call is a delete or a create of a declared name: packages without a file are never touched. */
  lemma {:induction false} PackageCallsOnDeclared(remote: set<string>, files: seq<(string, string)>)
    ensures forall c :: c in PackageCalls(remote, files) ==> !c.Register? && c.name in DeclaredPackages(files)
    decreases |files|
  {
    if files != [] {
      PackageCallsOnDeclared(remote, files[..|files| - 1]);
    }
  }

  /** The delete/create pairing that one package file contributes. */
  predicate Paired(remote: set<string>, calls: seq<Call>, i: int)
    requires 0 <= i < |calls|
  {
    (calls[i].DeletePkg? ==>
      calls[i].name in remote && i + 1 < |calls| && calls[i + 1].CreatePkg? && calls[i + 1].name == calls[i].name) &&
    (calls[i].CreatePkg? && calls[i].name in remote ==>
      i > 0 && calls[i - 1] == DeletePkg(calls[i].name))
  }

  /**
    Every delete is of a listed name and is immediately followed by the
    create of that name; every create of a listed name is immediately
    preceded by its delete; a create of an unlisted name has no delete.
   */
  lemma {:induction false} DeleteThenCreate(remote: set<string>, files: seq<(string, string)>)
    ensures forall i :: 0 <= i < |PackageCalls(remote, files)| ==> Paired(remote, PackageCalls(remote, files), i)
    decreases |files|
  {
    if files != [] {
      var init := files[..|files| - 1];
      var f := files[|files| - 1];
      DeleteThenCreate(remote, init);
      var pre := PackageCalls(remote, init);
      var one := FileCalls(remote, f);
      var calls := pre + one;
      assert PackageCalls(remote, files) == calls;
      var name := PackageName(f.0);
      forall i | 0 <= i < |calls| ensures Paired(remote, calls, i) {
        if i < |pre| {
          assert Paired(remote, pre, i);
          assert calls[i] == pre[i];
          if i + 1 < |pre| { assert calls[i + 1] == pre[i + 1]; }
          if i > 0 { assert calls[i - 1] == pre[i - 1]; }
        } else if name in remote {
          assert one == [DeletePkg(name), CreatePkg(name, f.1)];
          assert calls[|pre|] == DeletePkg(name);
          assert |calls| == |pre| + 2 && calls[|pre| + 1] == CreatePkg(name, f.1);
        } else {
          assert one == [CreatePkg(name, f.1)];
          assert calls[i] == CreatePkg(name, f.1);
        }
      }
    }
  }

  /**
    After the package pass the registered names are the old ones plus the
    declared ones, and a package without a file keeps its old body.
   */
  lemma {:induction false} OverlayKeepsUndeclared(m: map<string, string>, files: seq<(string, string)>)
    ensures Overlay(m, files).Keys == m.Keys + DeclaredPackages(files)
    ensures forall n :: n in m && n !in DeclaredPackages(files) ==> Overlay(m, files)[n] == m[n]
    decreases |files|
  {
    if files != [] {
      OverlayKeepsUndeclared(m, files[..|files| - 1]);
    }
  }

  /** A declared package ends up with the body of the last file that derives its name. */
  lemma {:induction false} OverlayLastFileWins(m: map<string, string>, files: seq<(string, string)>, i: nat)
    requires i < |files|
    requires forall j :: i < j < |files| ==> PackageName(files[j].0) != PackageName(files[i].0)
    ensures PackageName(files[i].0) in Overlay(m, files)
    ensures Overlay(m, files)[PackageName(files[i].0)] == files[i].1
    decreases |files|
  {
    if i < |files| - 1 {
      var init := files[..|files| - 1];
      assert init[i] == files[i];
      OverlayLastFileWins(m, init, i);
    }
  }

  /** With distinct names, every declared package ends up with its own file's body. */
  lemma PackagesMatchFiles(m: map<string, string>, files: seq<(string, string)>)
    requires DistinctNames(files)
    ensures forall i :: 0 <= i < |files| ==>
      PackageName(files[i].0) in Overlay(m, files) && Overlay(m, files)[PackageName(files[i].0)] == files[i].1
  {
    forall i | 0 <= i < |files|
      ensures PackageName(files[i].0) in Overlay(m, files) && Overlay(m, files)[PackageName(files[i].0)] == files[i].1
    {
      OverlayLastFileWins(m, files, i);
    }
  }

  lemma {:induction false} DistinctCountsOnce(files: seq<(string, string)>, n: string)
    requires DistinctNames(files)
    ensures FileCount(files, n) == if n in DeclaredPackages(files) then 1 else 0
    decreases |files|
  {
    if files != [] {
      var init := files[..|files| - 1];
      var last := PackageName(files[|files| - 1].0);
      assert DistinctNames(init) by {
        forall i, j | 0 <= i < j < |init| ensures PackageName(init[i].0) != PackageName(init[j].0) {
          assert init[i] == files[i] && init[j] == files[j];
        }
      }
      DistinctCountsOnce(init, n);
      if last == n {
        forall k | 0 <= k < |init| ensures PackageName(init[k].0) != n {
          assert init[k] == files[k];
        }
        NotDeclared(init, n);
      }
    }
  }

  /** A name no file derives is not declared. */
  lemma {:induction false} NotDeclared(files: seq<(string, string)>, n: string)
    requires forall k :: 0 <= k < |files| ==> PackageName(files[k].0) != n
    ensures n !in DeclaredPackages(files)
    decreases |files|
  {
    if files != [] {
      var init := files[..|files| - 1];
      forall k | 0 <= k < |init| ensures PackageName(init[k].0) != n {
        assert init[k] == files[k];
      }
      NotDeclared(init, n);
    }
  }

  /**
    Re-running the package pass against what the first pass left behind
    deletes and re-creates each declared package exactly once (names distinct).
   */
  lemma SecondPackagePassRecreatesOnce(m: map<string, string>, files: seq<(string, string)>, n: string)
    requires DistinctNames(files)
    requires n in DeclaredPackages(files)
    ensures var calls := PackageCalls(Overlay(m, files).Keys, files);
      Tally(calls, DeleteKind, n) == 1 && Tally(calls, CreateKind, n) == 1
  {
    OverlayKeepsUndeclared(m, files);
    DistinctCountsOnce(files, n);
    PackageCallsPerName(Overlay(m, files).Keys, files, n);
  }

  // ------------------------------------------------------------ whole pass

  /** In the whole pass's log every bucket registration comes before every package call. */
  lemma BucketsBeforePackages(bucketRemote: set<string>, lines: seq<string>,
                              packageRemote: set<string>, files: seq<(string, string)>)
    ensures var log := BucketCalls(bucketRemote, lines) + PackageCalls(packageRemote, files);
      forall i, j :: 0 <= i < j < |log| && log[j].Register? ==> log[i].Register?
  {
    var b := BucketCalls(bucketRemote, lines);
    var p := PackageCalls(packageRemote, files);
    BucketCallsRegisterAbsent(bucketRemote, lines);
    PackageCallsOnDeclared(packageRemote, files);
    var log := b + p;
    forall i | 0 <= i < |b| ensures log[i].Register? {
      assert log[i] == b[i] && b[i] in b;
    }
    forall i | |b| <= i < |log| ensures !log[i].Register? {
      assert log[i] == p[i - |b|] && p[i - |b|] in p;
    }
  }
}
