/** Packages as the planner sees them. Two package objects with the same contents are one value. */
module Package {
  import opened Common
  import opened DepString

  datatype Reason = Explicit | AsDependency

  /** `fromSync`: taken from a sync database, also once its file has been loaded. */
  datatype Pkg = Pkg(
    name: string,
    version: string,
    depends: seq<Depend>,
    provisions: seq<Depend>,
    conflicts: seq<Depend>,
    reason: Reason,
    filename: string,
    fromSync: bool)

  /** `_alpm_pkg_cmp` */
  function PkgCmp(p: Pkg, q: Pkg): int { StrCmp(p.name, q.name) }

  /** `_alpm_hash_sdbm`, on 64-bit words. */
  function HashSdbm(s: string): nat {
    if s == "" then 0
    else (s[|s|-1] as int + HashSdbm(s[..|s|-1]) * 65599) % 0x1_0000_0000_0000_0000
  }

  /** The factor is two shifts and a subtraction. */
  lemma HashStep(s: string, c: char)
    ensures HashSdbm(s + [c]) == (c as int + HashSdbm(s) * 64 + HashSdbm(s) * 65536 - HashSdbm(s)) % 0x1_0000_0000_0000_0000
  {
    assert (s + [c])[..|s|] == s;
  }
}
