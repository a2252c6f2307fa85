/** The library handle: the installed packages, the sync databases and the transaction. */
module Handle {
  import opened DepString
  import opened Package

  datatype Flags = Flags(
    nodeps: bool, nodepversion: bool, noconflicts: bool,
    cascade: bool, recurse: bool, recurseall: bool, unneeded: bool,
    alldeps: bool, allexplicit: bool,
    dbonly: bool, downloadonly: bool, nolock: bool, nohooks: bool)

  datatype TransState = Idle | Initialized | Prepared | Downloading | Committing | Committed | Interrupted

  datatype Usage = Usage(install: bool, upgrade: bool)

  datatype Db = Db(pkgcache: seq<Pkg>, usage: Usage, invalid: bool, missing: bool)

  class Trans {
    const flags: Flags
    var state: TransState
    var unresolvable: seq<Pkg>
    var add: seq<Pkg>
    var remove: seq<Pkg>
    /** The `removes` lists of the targets, and the installed packages they take over from. */
    var removes: map<Pkg, seq<Pkg>>
    var oldpkg: map<Pkg, Pkg>

    constructor (flags: Flags)
      ensures this.flags == flags && state == Initialized
      ensures unresolvable == add == remove == [] && removes == map[] && oldpkg == map[]
    {
      this.flags := flags;
      state, unresolvable, add, remove, removes, oldpkg := Initialized, [], [], [], map[], map[];
    }
  }

  class AlpmHandle {
    var dbLocal: seq<Pkg>
    var dbsSync: seq<Db>
    const assumeinstalled: seq<Depend>
    const ignored: set<Pkg>
    var trans: Trans?

    constructor (assumeinstalled: seq<Depend>, ignored: set<Pkg>)
      ensures this.assumeinstalled == assumeinstalled && this.ignored == ignored
      ensures dbLocal == [] && dbsSync == [] && trans == null
    {
      this.assumeinstalled, this.ignored := assumeinstalled, ignored;
      dbLocal, dbsSync, trans := [], [], null;
    }
  }
}
