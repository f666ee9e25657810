/**
  The remote query service as the reconciler sees it through its client:
  a set of registered bucket names, a map from package names to package
  bodies, and an append-only log of the state-changing calls made on it.
 */
module Remote {
  import opened Wrappers

  /** A state-changing call on the remote service. */
  datatype Call =
    | Register(name: string, region: Option<string>, accessKey: Option<string>, secretKey: Option<string>)
    | DeletePkg(name: string)
    | CreatePkg(name: string, body: string)

  class Client {
    var buckets: set<string>
    var packages: map<string, string>
    var log: seq<Call>

    constructor (buckets: set<string>, packages: map<string, string>)
      ensures this.buckets == buckets && this.packages == packages && log == []
    {
      this.buckets := buckets;
      this.packages := packages;
      log := [];
    }

    /** `buckets_list`: the names of the registered buckets. */
    method BucketsList() returns (names: set<string>)
      ensures names == buckets
    {
      names := buckets;
    }

    /** `buckets_register`: the bucket becomes registered; packages are untouched. */
    method BucketsRegister(name: string, region: Option<string>, accessKey: Option<string>, secretKey: Option<string>)
      modifies this
      ensures buckets == old(buckets) + {name}
      ensures packages == old(packages)
      ensures log == old(log) + [Register(name, region, accessKey, secretKey)]
    {
      buckets := buckets + {name};
      log := log + [Register(name, region, accessKey, secretKey)];
    }

    /** `packages_list_names`: the names of the registered packages. */
    method PackagesListNames() returns (names: set<string>)
      ensures names == packages.Keys
    {
      names := packages.Keys;
    }

    /** `packages_delete`: the package is no longer registered. */
    method PackagesDelete(name: string)
      modifies this
      ensures packages == old(packages) - {name}
      ensures buckets == old(buckets)
      ensures log == old(log) + [DeletePkg(name)]
    {
      packages := packages - {name};
      log := log + [DeletePkg(name)];
    }

    /** `packages_create`: the package is registered with the given body. */
    method PackagesCreate(name: string, body: string)
      modifies this
      ensures packages == old(packages)[name := body]
      ensures buckets == old(buckets)
      ensures log == old(log) + [CreatePkg(name, body)]
    {
      packages := packages[name := body];
      log := log + [CreatePkg(name, body)];
    }
  }
}
