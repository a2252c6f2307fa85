/** What the operators of a dependency mean, on dependencies as they are written. */
module DepLaws {
  import opened Common
  import opened Digits
  import opened DepString
  import opened Package
  import opened PkgLists
  import opened Deps
  import opened Conflict
  import opened Version
  import opened VersionOrder
  import opened VersionLaws

  /** A name or version without operators and without the start of a description. */
  predicate Plain(s: string) {
    Without(s, '<') && Without(s, '>') && Without(s, '=') && forall i :: 0 <= i && i + 1 < |s| ==> !(s[i] == ':' && s[i+1] == ' ')
  }

  /** The package satisfies the dependency that the text says. */
  predicate Satisfies(p: Pkg, text: string) { DepCmp(p, FromString(text)) }

  lemma ParsedAs(name: string, mod: Mod, v: string)
    requires Plain(name) && Plain(v) && mod != Any
    ensures FromString(name + Operator(mod) + v) == Depend(name, mod, Some(v), None)
  {
    hide FromString;
    var d := Depend(name, mod, Some(v), None);
    var h, n := Head(d), |name| + |Operator(mod)|;
    forall i | 0 <= i < |h| ensures !DelimiterAt(h, i) {
      if i + 1 < |name| {
        assert h[i] == name[i] && h[i+1] == name[i+1];
      } else if i >= n && i + 1 < |h| {
        assert h[i] == v[i-n] && h[i+1] == v[i+1-n];
      }
    }
    assert ComputeString(d) == name + Operator(mod) + v;
    ParsePrinted(d);
  }

  lemma ParsedAlone(name: string)
    requires Plain(name)
    ensures FromString(name) == Depend(name, Any, None, None)
  {
    hide FromString;
    var d := Depend(name, Any, None, None);
    assert ComputeString(d) == name && Head(d) == name;
    ParsePrinted(d);
  }

  lemma ParsedFive(name: string, v: string)
    requires Plain(name) && Plain(v)
    ensures FromString(name + ">=" + v) == Depend(name, Ge, Some(v), None)
    ensures FromString(name + "<=" + v) == Depend(name, Le, Some(v), None)
    ensures FromString(name + "=" + v) == Depend(name, Eq, Some(v), None)
    ensures FromString(name + ">" + v) == Depend(name, Gt, Some(v), None)
    ensures FromString(name + "<" + v) == Depend(name, Lt, Some(v), None)
  {
    hide FromString, Plain;
    ParsedAs(name, Ge, v);
    ParsedAs(name, Le, v);
    ParsedAs(name, Eq, v);
    ParsedAs(name, Gt, v);
    ParsedAs(name, Lt, v);
  }

  // ---- the version of the package itself ----

  /** A name alone is satisfied by every version of the package, and a dependency only by a package of its name. */
  lemma NamesMatch(p: Pkg, name: string, v: string)
    requires p.provisions == [] && Plain(name) && Plain(v)
    ensures Satisfies(p, name) <==> p.name == name
    ensures p.name != name ==>
              !Satisfies(p, name + ">=" + v) && !Satisfies(p, name + "<=" + v) && !Satisfies(p, name + "=" + v) &&
              !Satisfies(p, name + ">" + v) && !Satisfies(p, name + "<" + v)
  {
    hide FromString, Plain, PkgVerCmp;
    ParsedAlone(name);
    ParsedFive(name, v);
  }

  /** A package meets the bounds that its own version sets, and is neither older nor newer than itself. */
  lemma OwnVersion(p: Pkg)
    requires p.provisions == [] && Plain(p.name) && Plain(p.version)
    ensures Satisfies(p, p.name + ">=" + p.version) && Satisfies(p, p.name + "<=" + p.version) && Satisfies(p, p.name + "=" + p.version)
    ensures !Satisfies(p, p.name + ">" + p.version) && !Satisfies(p, p.name + "<" + p.version)
  {
    hide FromString, Plain, VerCmp;
    ParsedFive(p.name, p.version);
    VerCmpReflexive(p.version);
  }

  /** Older is not at least, newer is not at most, and equal is both. */
  lemma Complements(p: Pkg, v: string)
    requires p.provisions == [] && Plain(p.name) && Plain(v)
    ensures Satisfies(p, p.name + "<" + v) <==> !Satisfies(p, p.name + ">=" + v)
    ensures Satisfies(p, p.name + ">" + v) <==> !Satisfies(p, p.name + "<=" + v)
    ensures Satisfies(p, p.name + "=" + v) <==> Satisfies(p, p.name + ">=" + v) && Satisfies(p, p.name + "<=" + v)
  {
    hide FromString, Plain, VerCmp;
    ParsedFive(p.name, v);
  }

  /** On versions that can be ordered, whatever is newer than something that meets a lower bound meets it, and whatever is
      older than something that meets an upper bound meets that. */
  lemma BoundsAreClosed(p: Pkg, other: string, v: string)
    requires p.provisions == [] && Plain(p.name) && Plain(v) && Comparable(p.version) && Comparable(other) && Comparable(v)
    ensures VerCmp(other, p.version) >= 0 && Satisfies(p, p.name + ">=" + v) ==> Satisfies(p.(version := other), p.name + ">=" + v)
    ensures VerCmp(other, p.version) <= 0 && Satisfies(p, p.name + "<=" + v) ==> Satisfies(p.(version := other), p.name + "<=" + v)
  {
    hide FromString, Plain, VerCmp, Comparable;
    ParsedFive(p.name, v);
    VerCmpTransitive(other, p.version, v);
    VerCmpTransitive(v, p.version, other);
    Swapped(other, p.version);
    Swapped(p.version, v);
    Swapped(other, v);
  }

  lemma Swapped(a: string, b: string)
    ensures VerCmp(a, b) == -VerCmp(b, a)
  {
    hide VerCmp;
    VerCmpAntisymmetric(Some(a), Some(b));
  }

  /** Versions that are numbers meet a bound as the numbers do. */
  lemma ByNumbers(p: Pkg, v: string)
    requires p.provisions == [] && Plain(p.name) && p.version != [] && AllDigits(p.version) && v != [] && AllDigits(v)
    ensures Satisfies(p, p.name + ">=" + v) <==> Value(p.version) >= Value(v)
    ensures Satisfies(p, p.name + "<=" + v) <==> Value(p.version) <= Value(v)
    ensures Satisfies(p, p.name + "=" + v) <==> Value(p.version) == Value(v)
    ensures Satisfies(p, p.name + ">" + v) <==> Value(p.version) > Value(v)
    ensures Satisfies(p, p.name + "<" + v) <==> Value(p.version) < Value(v)
  {
    hide FromString, VerCmp, RpmCmp, Value;
    ParsedFive(p.name, v);
    EpochsLead(p.version, v);
    ReleaseNeedsRelease(p.version, [], v);
  }

  /** Version 2 meets a lower bound of 1, version 1 none of 2. */
  lemma TwoIsAtLeastOne(p: Pkg)
    requires p.provisions == [] && p.name == "lib"
    ensures p.version == "2" ==> Satisfies(p, "lib>=1")
    ensures p.version == "1" ==> !Satisfies(p, "lib>=2")
  {
    hide FromString, DepCmp, Value;
    assert Value("2") == 2 && Value("1") == 1 by { OneTwo(); }
    if p.version == "2" {
      ByNumbers(p, "1");
      assert "lib" + ">=" + "1" == "lib>=1";
    }
    if p.version == "1" {
      ByNumbers(p, "2");
      assert "lib" + ">=" + "2" == "lib>=2";
    }
  }

  lemma OneTwo()
    ensures Value("1") == 1 && Value("2") == 2
  {
    OneDigit('1');
    OneDigit('2');
  }

  // ---- conflicts and the check ----

  /** A package with one conflict entry conflicts with the packages of other names that satisfy what the entry says. */
  lemma ConflictEntry(p: Pkg, q: Pkg, text: string)
    requires p.conflicts == [FromString(text)]
    ensures ConflictsWith(p, q) <==> p.name != q.name && Satisfies(q, text)
  {
    hide DepCmp, FromString;
    if p.name != q.name && Satisfies(q, text) { assert Clash(p, p.conflicts[0], q); }
  }

  /** What is assumed to be installed meets dependencies as a package of that name and version would. */
  lemma AssumptionMeets(q: Query, a: Pkg, d: Depend)
    requires Plain(a.name) && Plain(a.version) && a.provisions == [] && FromString(a.name + "=" + a.version) in q.assumed
    requires DepCmp(a, d)
    ensures Met(q, d)
  {
    hide FromString, Plain, PkgVerCmp, Satisfied, Untouched;
    ParsedFive(a.name, a.version);
    var i :| 0 <= i < |q.assumed| && q.assumed[i] == FromString(a.name + "=" + a.version);
    assert ProvisionMatches(q.assumed[i], d);
  }

  /** When versions are ignored the name is enough, of a target as of a package that stays. */
  lemma NamesSuffice(q: Query, d: Depend)
    requires q.nodepversion && (HasName(q.upgrade, d.name) || HasName(Untouched(q), d.name))
    ensures Met(q, Effective(q, d))
  {
    hide Untouched, DepCmpProvides;
    var pkgs := if HasName(q.upgrade, d.name) then q.upgrade else Untouched(q);
    var i :| 0 <= i < |pkgs| && pkgs[i].name == d.name;
    assert DepCmp(pkgs[i], Effective(q, d));
  }

  // ---- provisions ----

  /** A provision without a version, or with one that is not exact, satisfies the name alone. */
  lemma InexactProvisions(p: Pkg, name: string, v: string)
    requires Plain(name) && Plain(v) && p.name != name && forall i :: 0 <= i < |p.provisions| ==> p.provisions[i].mod != Eq
    ensures Satisfies(p, name) <==> exists i :: 0 <= i < |p.provisions| && p.provisions[i].name == name
    ensures !Satisfies(p, name + ">=" + v) && !Satisfies(p, name + "<=" + v) && !Satisfies(p, name + "=" + v) &&
            !Satisfies(p, name + ">" + v) && !Satisfies(p, name + "<" + v)
  {
    hide FromString, Plain, DepVercmp;
    ParsedAlone(name);
    ParsedFive(name, v);
  }

  /** A provision of an exact version stands for a package of that name and version. */
  lemma ExactProvision(p: Pkg, q: Pkg, d: Depend)
    requires Plain(q.name) && Plain(q.version) && q.provisions == [] && p.provisions == [FromString(q.name + "=" + q.version)]
    requires p.name != d.name
    ensures DepCmp(p, d) <==> DepCmp(q, d)
  {
    hide FromString, Plain, PkgVerCmp;
    ParsedFive(q.name, q.version);
    if DepCmp(q, d) { assert ProvisionMatches(p.provisions[0], d); }
  }
}
