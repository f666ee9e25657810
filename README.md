# init_packages: session bootstrap reconciler of the diabetes demo

When a user logs in, the web application runs `init_packages`. It brings the
remote query service's registered S3 buckets and packages into line with the
local definition files under `raw_ini/`:

* **Buckets.** The service's bucket list is fetched once. Each line of
  `buckets.txt` is split on whitespace. A line without tokens is skipped.
  Otherwise the tokens are `name [region [access_key [secret_key]]]`, and
  missing trailing fields are `None`. A bucket whose name is not in the
  fetched list is registered with its four fields; one already there is
  skipped.
* **Packages.** The service's package names are fetched once. For each file
  `raw_ini/packages/*.rql`, the package name is the basename of the file name
  with its last four characters (`.rql`) removed. If that name was listed, the
  package is deleted. Either way it is then created with the file's body.

The model is imperative, like the code. `Remote.Client` is the service: a set
of bucket names, a map from package names to bodies, and an append-only log
of the state-changing calls made on it. `Reconcile.InitPackages` runs the two
loops against such a client. Its contract pins the whole new state: the log
grows by exactly `BucketCalls(...) + PackageCalls(...)`, the bucket set by the
declared names, and the package map becomes `Overlay(...)` of the files.
These are functions of the inputs and of the state before the call. The
module `Properties` proves what the code promises about them.

The definition files are inputs. The bucket file is a `seq<string>` of its
lines, each with the newline `readlines` leaves on it. The package files are
a `seq<(file name, body)>`, in the order the directory listing yields them.
The model reads the code as Python 3: `str.split()` splits on the whitespace
set of `str.isspace`, Unicode separators included.

Three facts about the code shape the model:

* A package that is already listed is deleted and created again with the
  file's body. It is never skipped.
* Duplicate names are never rejected. A name on two bucket lines that is
  absent from the listing is registered twice, because the listing is not
  refreshed during the pass (`Properties.RegistrationsPerName`). Two package
  files with the same derived name are each created in turn.
* Only buckets and packages are handled. There are no database connections,
  no views, no typed load errors and no handling of partial failure. A
  file that cannot be opened or read raises, and that ends the pass.

## Model

| member | source | states |
|---|---|---|
| Tokens.Split | app.py:73 | every token `line.split()` yields is non-empty and holds no whitespace |
| Tokens.SplitKeepsText | app.py:73 | the tokens, concatenated, are exactly the line's non-whitespace characters in order |
| Tokens.SplitEmptyIff | app.py:73-75 | a line yields no token if and only if it is entirely whitespace (the empty line included) |
| Tokens.SplitJoin | app.py:73 | splitting tokens joined by single spaces gives back the same tokens |
| Tokens.SplitSpaced | app.py:72-73 | splitting tokens laid out with any whitespace (non-empty runs between tokens, any run, even empty, before the first and after the last, such as the trailing newline) gives back the same tokens |
| Paths.DropLast4 | app.py:89 | `filename[:-4]`: the file name less its last four characters, or empty when it is shorter than four |
| Paths.Basename | app.py:89 | POSIX `os.path.basename`; its property is stated by `Paths.BasenameIsLastComponent` |
| Paths.BasenameIsLastComponent | app.py:89 | `os.path.basename` yields a suffix of the path that holds no `/` and is either the whole path or preceded by `/` |
| Paths.BasenameIsSuffix | app.py:89 | the basename is a suffix of the path |
| Paths.BasenameHasNoSlash | app.py:89 | the basename holds no `/` |
| Paths.BasenameFollowsSlash | app.py:89 | the basename is the whole path or is preceded in it by `/` |
| Paths.PackageName | app.py:89 | `os.path.basename(filename[:-4])`; its property is stated by `Paths.PackageNameOfPath` |
| Paths.PackageNameOfPath | app.py:88-89 | the package name of `dir/stem.rql` is `stem` whenever `stem` holds no `/` |
| Buckets.ParseLine | app.py:73-80 | a line gives no bucket exactly when it is all whitespace; every bucket it gives is well formed (token fields, each optional field present only after the previous one) |
| Buckets.FromTokens | app.py:74-80 | the field extraction from a line's tokens; its property is stated by `Buckets.FieldsOfTokens` and `Buckets.TokensOfFields` |
| Buckets.FieldsOfTokens | app.py:77-80 | for k >= 1 tokens: name = token 0; region, access key and secret key are present exactly when k > 1, 2, 3 and are then tokens 1, 2, 3, otherwise `None`; the fields in order are the first min(4, k) tokens, so tokens beyond the fourth do not matter |
| Buckets.TokensOfFields | app.py:77-80 | reading back the fields of a well-formed bucket gives that bucket |
| Buckets.ParseRender | app.py:72-80 | round trip: a well-formed bucket written as a line parses back to itself |
| Buckets.ParseSpaced | app.py:72-80 | round trip with any whitespace layout: a well-formed bucket whose fields are separated by non-empty whitespace runs, with any leading and trailing whitespace, parses back to itself |
| Remote.Client.constructor | app.py:68 | a client over given bucket and package state starts with an empty call log |
| Remote.Client.BucketsList | app.py:71 | `buckets_list` returns the registered bucket names |
| Remote.Client.BucketsRegister | app.py:84 | `buckets_register` adds the name, leaves the packages alone and logs one `Register` call with the four fields |
| Remote.Client.PackagesListNames | app.py:86 | `packages_list_names` returns the registered package names |
| Remote.Client.PackagesDelete | app.py:92 | `packages_delete` removes the package and logs one `DeletePkg` call |
| Remote.Client.PackagesCreate | app.py:95 | `packages_create` sets the package's body and logs one `CreatePkg` call |
| Reconcile.InitPackages | app.py:66-95 | the log grows by the bucket calls (against the bucket set before the pass) followed by the package calls (against the package names before the pass); the buckets become the old ones plus the declared ones; the packages become the files overlaid on the old map |
| Reconcile.RegisterBuckets | app.py:70-84 | the bucket loop, proved by its invariants against `BucketCalls` and `DeclaredBuckets` over the one listing taken before it; packages unchanged |
| Reconcile.RegisterPackages | app.py:86-95 | the package loop, proved by its invariants against `PackageCalls` and `Overlay` over the one listing taken before it; buckets unchanged |
| Reconcile.BucketCalls | app.py:72-84 | the calls the bucket pass makes over the lines against one listing; its properties are stated by `Properties.LineRegisters` (each line's registration carries its name, region, access key and secret key, in line order), `Properties.BucketCallsAppend`, `Properties.BucketCallsRegisterAbsent`, `Properties.RegistrationsPerName`, `Properties.BucketsIdempotent` and `Properties.BlankLineIssuesNothing` |
| Reconcile.DeclaredBuckets | app.py:72-84 | the bucket names the file declares, which `Reconcile.RegisterBuckets` adds to the remote set; its properties are stated by `Properties.BucketCallsAppend`, `Properties.BucketCallsRegisterAbsent` and `Properties.SecondBucketPassIsSilent` |
| Reconcile.PackageCalls | app.py:88-95 | the calls the package pass makes over the files against one listing; its properties are stated by `Properties.FileCreates`, `Properties.PackageCallsAppend`, `Properties.PackageCallsPerName`, `Properties.PackageCallsOnDeclared` and `Properties.DeleteThenCreate` |
| Reconcile.Overlay | app.py:88-95 | the package map after each file, in order, has been (re)created; its properties are stated by `Properties.OverlayKeepsUndeclared`, `Properties.OverlayLastFileWins` and `Properties.PackagesMatchFiles` |
| Reconcile.LineCalls | app.py:82-84 | the decision for one bucket line (register if absent from the listing, else nothing); its properties are stated by `Properties.LineRegisters`, `Properties.BucketCallsRegisterAbsent`, `Properties.RegistrationsPerName` and `Properties.BlankLineIssuesNothing` |
| Reconcile.FileCalls | app.py:90-95 | the decision for one package file (delete if listed, then create); its properties are stated by `Properties.FileCreates`, `Properties.PackageCallsPerName` and `Properties.DeleteThenCreate` |
| Properties.BucketCallsAppend | app.py:72-84 | bucket calls follow file line order: the calls for `a + b` are those for `a`, then those for `b` |
| Properties.LineRegisters | app.py:72-84 | wherever a line stands in the file, it contributes exactly one `Register(tok[0], tok[1]?, tok[2]?, tok[3]?)` (each field `None` when its token is missing) if its first token is absent from the listing, and nothing otherwise; the calls of the lines before and after it stay around it |
| Properties.BlankLineIssuesNothing | app.py:73-75 | a whitespace-only line, wherever it stands, adds no call and declares no bucket |
| Properties.BucketCallsRegisterAbsent | app.py:82-84 | every bucket call is a registration of a declared bucket that was absent from the listing |
| Properties.RegistrationsPerName | app.py:71-84 | a name present in the listing is registered zero times; an absent name is registered once per line that declares it |
| Properties.BucketsIdempotent | app.py:82 | against a listing holding every declared bucket, the bucket pass makes no call |
| Properties.SecondBucketPassIsSilent | app.py:71-84 | a second bucket pass, run against the buckets the first pass left behind, makes no call |
| Properties.SingleBucketExample | app.py:72-84 | the file `s3bucket us-east-1`, with or without the trailing newline `readlines` keeps, against an empty listing gives exactly `Register("s3bucket", Some("us-east-1"), None, None)` |
| Properties.PackageCallsAppend | app.py:88-95 | package calls follow the given file order |
| Properties.FileCreates | app.py:88-95 | wherever a file stands in the list, it contributes a `DeletePkg` of its derived name exactly when that name was listed, then one `CreatePkg` of that name with the file's body; the calls of the files before and after it stay around it |
| Properties.PackageCallsPerName | app.py:86-95 | per name: one create per file deriving it; the same number of deletes if the name was listed, none otherwise; no bucket registration |
| Properties.PackageCallsOnDeclared | app.py:88-95 | every package call is a delete or a create of a declared name, so remote packages without a file are never deleted or modified |
| Properties.DeleteThenCreate | app.py:90-95 | every delete is of a listed name and is immediately followed by the create of that name; every create of a listed name is immediately preceded by its delete |
| Properties.OverlayKeepsUndeclared | app.py:86-95 | after the pass the package names are the old ones plus the declared ones, and a package without a file keeps its old body |
| Properties.OverlayLastFileWins | app.py:88-95 | a declared package ends with the body of the last file deriving its name |
| Properties.PackagesMatchFiles | app.py:88-95 | with distinct derived names, each declared package ends with its own file's body |
| Properties.SecondPackagePassRecreatesOnce | app.py:86-95 | with distinct names, a re-run against the packages the first pass left behind deletes and re-creates each declared package exactly once |
| Properties.BucketsBeforePackages | app.py:70-95 | in the pass's log, every bucket registration precedes every package call |

## Left out

* Flask routing, the login decorator, OAuth login, callback and logout,
  session handling and template rendering (app.py:21-50, 101-162,
  196-213). They are web glue with no stated logic.
* `create_client` and the `rawapi` library (app.py:53-63). These are
  configuration and a foreign client, so the client is the abstract
  `Remote.Client`.
* Opening `buckets.txt`, `readlines`, `glob.glob` and reading package
  files (app.py:70-72, 88, 93). This is I/O, so their contents are inputs.
  The model takes the package file order as given, because glob order
  depends on the file system.
* What glob guarantees is not required of the inputs: that every name ends
  in `.rql` and that all files share one directory. `Paths.PackageNameOfPath`
  states the name for files of that shape.
* Failing remote calls. The code has no error handling: an exception from
  any call ends the pass, and earlier calls stay applied. The model covers
  the pass in which every call succeeds.
* Failing file reads. The model covers only passes in which every file read
  succeeds, because it takes the file contents as inputs read before the
  loops. Two consequences of the code are therefore not shown:
  * A bucket file that cannot be opened (app.py:70) raises before
    `buckets_list` (app.py:71). One that opens but cannot be decoded raises
    at `readlines` (app.py:72), after the listing. Either way the pass makes
    no state-changing call, and the package pass never runs.
  * A listed package is deleted (app.py:92) before its file is opened
    (app.py:93) and read (app.py:95). A file that cannot be opened or
    decoded raises after that delete. The package then stays deleted and is
    not re-created, and the files after it are not processed.
* Logging (app.py:83, 91, 94, 216-224). It has no effect on the remote
  state, and the overwrite warning is not in the call log.
* `Remote.Client.PackagesCreate`: what the service does when asked to
  create a package name that already exists is not visible in the code. The
  model overwrites. Only two files with the same derived name reach that case.
* The code does not show what `buckets_list` (app.py:71) and
  `packages_list_names` (app.py:86) return. It only tests names against
  them with `in`, so the model holds each as a set of names.
* Path handling on Windows. `Paths.Basename` is POSIX `basename`, which
  splits only on `/`; `ntpath.basename` also splits on `\`.
* Python 2. Under Python 2, `open` yields byte strings, and their `split()`
  splits only on ASCII whitespace. The model is Python 3 `str.split()`.
* The `diabetes_train` query text (app.py:165-193). Its meaning lives in the
  remote engine.
* Database connections and views. They do not appear in the code.
