/**
 * The `search` command: the catalog packages whose name, or whose
 * `replace` field (the tool a package stands in for), contains the keyword
 * are printed by name, in catalog order.
 */
module Search {
  import opened Wrappers
  import opened Strings
  import Seqs
  import Catalog

  /** Whether a package answers to the keyword. */
  predicate Matches(p: Catalog.Package, keyword: string) {
    Contains(p.name, keyword) || (p.replace.Some? && Contains(p.replace.value, keyword))
  }

  /** `t` occurs in `s` at offset `i`. */
  predicate OccursAt(t: string, s: string, i: int) {
    0 <= i && i + |t| <= |s| && s[i..i + |t|] == t
  }

  /** `t` occurs in `s` at some offset. */
  ghost predicate OccursIn(t: string, s: string) {
    exists i | 0 <= i <= |s| :: OccursAt(t, s, i)
  }

  /** `Contains` is substring occurrence. */
  lemma {:induction false} ContainsIff(s: string, t: string)
    ensures Contains(s, t) <==> OccursIn(t, s)
    decreases |s|
  {
    if OccursIn(t, s) {
      var i :| 0 <= i <= |s| && OccursAt(t, s, i);
      assert i + |t| <= |s| && s[i..i + |t|] == t;
      ContainsAt(s, t, i);
    }
    if Contains(s, t) {
      if StartsWith(s, t) {
        assert OccursAt(t, s, 0);
      } else {
        assert |s| > 0 && Contains(s[1..], t);
        ContainsIff(s[1..], t);
        var i :| 0 <= i <= |s[1..]| && OccursAt(t, s[1..], i);
        assert s[i + 1..i + 1 + |t|] == s[1..][i..i + |t|];
        assert OccursAt(t, s, i + 1);
      }
    }
  }

  /** The loop of `search` over the catalog: the names of the matching packages, in order. */
  function Select(packages: seq<Catalog.Package>, keyword: string): (r: seq<string>)
    ensures |r| <= |packages|
    ensures forall n | n in r :: exists p | p in packages :: p.name == n && Matches(p, keyword)
    decreases |packages|
  {
    if |packages| == 0 then []
    else
      var rest := Select(packages[1..], keyword);
      assert forall p | p in packages[1..] :: p in packages;
      if Matches(packages[0], keyword) then [packages[0].name] + rest else rest
  }

  function NameOf(p: Catalog.Package): string {
    p.name
  }

  /** The printed names are the names of the matching packages, in catalog order and each match once. */
  lemma {:induction false} SelectIsFilter(packages: seq<Catalog.Package>, keyword: string)
    ensures Select(packages, keyword) == Seqs.Map(NameOf, Seqs.Filter((p: Catalog.Package) => Matches(p, keyword), packages))
    decreases |packages|
  {
    if |packages| > 0 {
      SelectIsFilter(packages[1..], keyword);
      var kept := Seqs.Filter((p: Catalog.Package) => Matches(p, keyword), packages[1..]);
      if Matches(packages[0], keyword) {
        assert Seqs.Map(NameOf, [packages[0]] + kept) == [NameOf(packages[0])] + Seqs.Map(NameOf, kept);
      }
    }
  }

  /** The empty keyword matches every package: the whole catalog is listed. */
  lemma {:induction false} EmptyKeywordListsAll(packages: seq<Catalog.Package>)
    ensures Select(packages, "") == Seqs.Map(NameOf, packages)
    decreases |packages|
  {
    if |packages| > 0 {
      ContainsEmpty(packages[0].name);
      EmptyKeywordListsAll(packages[1..]);
    }
  }

  /** A package without a `replace` field is matched on its name alone. */
  lemma NameOnlyWithoutReplace(p: Catalog.Package, keyword: string)
    requires p.replace.None?
    ensures Matches(p, keyword) <==> OccursIn(keyword, p.name)
  {
    ContainsIff(p.name, keyword);
  }

  /** `search`: nothing is printed when the catalog does not load. */
  function SearchCommand(sys: Catalog.CatalogFile, custom: Catalog.CatalogFile, keyword: string): (r: seq<string>)
    ensures Catalog.LoadConfig(sys, custom).Err? ==> r == []
    ensures Catalog.LoadConfig(sys, custom).Ok? ==>
      r == Seqs.Map(NameOf, Seqs.Filter((p: Catalog.Package) => Matches(p, keyword), Catalog.LoadConfig(sys, custom).value.packages))
  {
    match Catalog.LoadConfig(sys, custom)
    case Err(_) => []
    case Ok(k) =>
      SelectIsFilter(k.packages, keyword);
      Select(k.packages, keyword)
  }
}
