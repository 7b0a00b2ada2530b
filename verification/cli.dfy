/** The command-line front end's own logic: the order in which catalogue
    keys are listed, the search filter, the lines `list` and `search` print,
    and the install requests `install` and `upgrade` build from their
    arguments. Case folding is ASCII only. */
module Cli {
  import opened Pak
  import Sequences
  import FsRepo
  import Manager

  // ---------------------------------------------------------------------
  // ASCII case folding

  function Lower(c: char): char {
    if 'A' <= c <= 'Z' then (c as int + 32) as char else c
  }

  function LowerStr(s: string): (r: string)
    ensures |r| == |s|
    ensures forall i :: 0 <= i < |s| ==> r[i] == Lower(s[i])
  {
    if s == [] then [] else [Lower(s[0])] + LowerStr(s[1..])
  }

  /** The strings are equal up to case. */
  predicate EqualFold(a: string, b: string) {
    LowerStr(a) == LowerStr(b)
  }

  // ---------------------------------------------------------------------
  // Key order

  /** Case-insensitive order, with byte order deciding between keys that
      differ only in case. */
  function KeyLess(a: string, b: string): bool {
    if EqualFold(a, b) then Sequences.StringLess(a, b)
    else Sequences.StringLess(LowerStr(a), LowerStr(b))
  }

  lemma KeyLessIsStrictTotal()
    ensures Sequences.StrictTotalOrder(KeyLess)
  {
    Sequences.StringLessIsStrictTotal();
    forall a: string, b: string, c: string | KeyLess(a, b) && KeyLess(b, c)
      ensures KeyLess(a, c)
    {
      if !EqualFold(a, c) && LowerStr(a) != LowerStr(b) && LowerStr(b) == LowerStr(c) {
        assert Sequences.StringLess(LowerStr(a), LowerStr(c));
      }
    }
  }

  /** The catalogue's keys in listing order. */
  function SortedKeys(index: SpecIndex): (r: seq<string>)
    ensures |r| == |index|
    ensures forall k :: k in r <==> k in index
    ensures Sequences.StrictlySorted(r, KeyLess)
  {
    KeyLessIsStrictTotal();
    Sequences.SortSet(index.Keys, KeyLess)
  }

  /** Adjacent or not, an earlier key's lower-case form is no greater than a
      later one's, and keys equal up to case are in byte order. */
  lemma SortedKeysOrder(index: SpecIndex, i: int, j: int)
    requires 0 <= i < j < |SortedKeys(index)|
    ensures var keys := SortedKeys(index);
      || Sequences.StringLess(LowerStr(keys[i]), LowerStr(keys[j]))
      || (LowerStr(keys[i]) == LowerStr(keys[j]) && Sequences.StringLess(keys[i], keys[j]))
  {
  }

  /** Any listing of the keys that respects the order is this one: the
      output does not depend on how the map was enumerated. */
  lemma SortedKeysIsUnique(index: SpecIndex, keys: seq<string>)
    requires forall k :: k in keys <==> k in index
    requires Sequences.StrictlySorted(keys, KeyLess)
    ensures keys == SortedKeys(index)
  {
    KeyLessIsStrictTotal();
    Sequences.SortedIsUnique(keys, SortedKeys(index), KeyLess);
  }

  // ---------------------------------------------------------------------
  // Search

  /** sub occurs in s at position i. */
  predicate OccursAt(s: string, sub: string, i: int) {
    0 <= i <= |s| - |sub| && s[i..i + |sub|] == sub
  }

  /** sub occurs in s, scanning from the front. */
  function Contains(s: string, sub: string): bool
    decreases |s|
  {
    if OccursAt(s, sub, 0) then true
    else if s == [] then false
    else Contains(s[1..], sub)
  }

  /** An occurrence past the first position is an occurrence in the tail. */
  lemma OccursInTail(s: string, sub: string, i: int)
    requires s != [] && 0 < i
    ensures OccursAt(s, sub, i) <==> OccursAt(s[1..], sub, i - 1)
  {
    if i <= |s| - |sub| {
      var n := |sub|;
      var here, there := s[i..i + n], s[1..][i - 1..i - 1 + n];
      forall k | 0 <= k < n
        ensures here[k] == there[k]
      {
        assert s[1..][i - 1 + k] == s[i + k];
      }
      assert here == there;
    }
  }

  /** The scan finds sub exactly when it occurs somewhere in s. */
  lemma {:induction false} ContainsIffOccurs(s: string, sub: string)
    ensures Contains(s, sub) <==> exists i :: OccursAt(s, sub, i)
    decreases |s|
  {
    if OccursAt(s, sub, 0) {
    } else if s == [] {
      assert forall i :: !OccursAt(s, sub, i);
    } else {
      ContainsIffOccurs(s[1..], sub);
      if Contains(s[1..], sub) {
        var i :| OccursAt(s[1..], sub, i);
        OccursInTail(s, sub, i + 1);
      } else {
        forall i | OccursAt(s, sub, i)
          ensures false
        {
          if i > 0 {
            OccursInTail(s, sub, i);
          }
        }
      }
    }
  }

  /** The keys, in listing order, whose lower-case form contains the
      lower-cased query. */
  function Search(index: SpecIndex, query: string): (r: seq<string>)
    ensures forall k :: k in r <==> k in index && Contains(LowerStr(k), LowerStr(query))
    ensures Sequences.StrictlySorted(r, KeyLess)
  {
    var keys := SortedKeys(index);
    Sequences.FilterKeepsSorted(keys, (k: string) => Contains(LowerStr(k), LowerStr(query)), KeyLess);
    Sequences.Filter(keys, (k: string) => Contains(LowerStr(k), LowerStr(query)))
  }

  /** Searching for the empty string lists every key. */
  lemma SearchEmptyListsAll(index: SpecIndex)
    ensures Search(index, "") == SortedKeys(index)
  {
    var keep := (k: string) => Contains(LowerStr(k), LowerStr(""));
    forall k | k in SortedKeys(index)
      ensures keep(k)
    {
      assert OccursAt(LowerStr(k), "", 0);
    }
    Sequences.FilterKeepsAll(SortedKeys(index), keep);
  }

  // ---------------------------------------------------------------------
  // Printed lines

  /** One printed line: the spec's own id, one of its versions, and its
      description. */
  datatype Line = Line(id: string, version: string, description: string)

  /** The lines for one spec, one per version, in version order. */
  function VersionLines(spec: Spec, versions: seq<string>): (r: seq<Line>)
    ensures |r| == |versions|
    ensures forall i :: 0 <= i < |r| ==> r[i] == Line(spec.id, versions[i], spec.description)
    ensures forall l :: l in r <==> l.id == spec.id && l.description == spec.description && l.version in versions
  {
    if versions == [] then [] else [Line(spec.id, versions[0], spec.description)] + VersionLines(spec, versions[1..])
  }

  /** l is one of the lines printed for the catalogue entry under key k. */
  predicate PrintedFor(index: SpecIndex, k: string, l: Line) {
    k in index && l.id == index[k].id && l.description == index[k].description
    && l.version in index[k].versions
  }

  /** The lines for the given keys, in key order. */
  function LinesOf(index: SpecIndex, keys: seq<string>): (r: seq<Line>)
    requires forall k :: k in keys ==> k in index
    ensures forall l :: l in r <==> exists k :: k in keys && PrintedFor(index, k, l)
  {
    if keys == [] then []
    else
      var head, tail := VersionLines(index[keys[0]], index[keys[0]].versions), LinesOf(index, keys[1..]);
      assert forall l :: l in head + tail <==> exists k :: k in keys && PrintedFor(index, k, l) by {
        forall l
          ensures l in head + tail <==> exists k :: k in keys && PrintedFor(index, k, l)
        {
          if l in head {
            assert PrintedFor(index, keys[0], l);
          } else if l in tail {
            var k :| k in keys[1..] && PrintedFor(index, k, l);
            assert k in keys;
          }
        }
      }
      head + tail
  }

  /** The lines for a + b are the lines for a followed by those for b. */
  lemma {:induction false} LinesOfAppend(index: SpecIndex, a: seq<string>, b: seq<string>)
    requires forall k :: k in a ==> k in index
    requires forall k :: k in b ==> k in index
    ensures LinesOf(index, a + b) == LinesOf(index, a) + LinesOf(index, b)
    decreases |a|
  {
    var ab := a + b;
    assert forall k :: k in ab ==> k in index;
    if a == [] {
      assert ab == b;
    } else {
      var rest := a[1..];
      assert ab[0] == a[0] && ab[1..] == rest + b;
      LinesOfAppend(index, rest, b);
      assert LinesOf(index, ab)
        == VersionLines(index[a[0]], index[a[0]].versions) + LinesOf(index, rest + b);
    }
  }

  /** What `list` prints: a line for every version of every entry. */
  function ListLines(index: SpecIndex): (r: seq<Line>)
    ensures forall l :: l in r <==> exists k :: k in index && PrintedFor(index, k, l)
  {
    LinesOf(index, SortedKeys(index))
  }

  /** What `search` prints: the lines of the entries whose key matches. */
  function SearchLines(index: SpecIndex, query: string): (r: seq<Line>)
    ensures forall l :: l in r <==>
      exists k :: k in index && Contains(LowerStr(k), LowerStr(query)) && PrintedFor(index, k, l)
  {
    LinesOf(index, Search(index, query))
  }

  /** `search ""` prints exactly what `list` prints, in the same order. */
  lemma SearchEmptyPrintsList(index: SpecIndex)
    ensures SearchLines(index, "") == ListLines(index)
  {
    SearchEmptyListsAll(index);
  }

  /** The lines of the key at position i form one block, between the lines
      of the keys before it and those after it; for `list` and `search` the
      keys are the listed and the matching ones. */
  lemma LinesOfAt(index: SpecIndex, keys: seq<string>, i: nat)
    requires forall k :: k in keys ==> k in index
    requires i < |keys|
    ensures LinesOf(index, keys)
      == LinesOf(index, keys[..i]) + VersionLines(index[keys[i]], index[keys[i]].versions)
         + LinesOf(index, keys[i + 1..])
  {
    var front, back := keys[..i], keys[i..];
    assert keys == front + back;
    LinesOfAppend(index, front, back);
    assert back[1..] == keys[i + 1..];
  }

  // ---------------------------------------------------------------------
  // Arguments

  /** One request per id, each for the latest version. */
  function SpecsOf(ids: seq<string>): (r: seq<InstallSpec>)
    ensures |r| == |ids|
    ensures forall i :: 0 <= i < |r| ==> r[i].id == ids[i] && r[i].version == ""
  {
    if ids == [] then [] else [InstallSpec(ids[0], "")] + SpecsOf(ids[1..])
  }

  /** `install` needs at least one id; without one it prints the usage and
      exits with status 1 (None). */
  function InstallArgs(ids: seq<string>): (r: Option<seq<InstallSpec>>)
    ensures r.None? <==> ids == []
    ensures r.Some? ==> |r.value| == |ids| && forall s :: s in r.value ==> s.version == ""
    ensures r.Some? ==> forall i :: 0 <= i < |ids| ==> r.value[i] == InstallSpec(ids[i], "")
  {
    if ids == [] then None else Some(SpecsOf(ids))
  }

  /** `uninstall` needs at least one id, like `install`. */
  function UninstallArgs(ids: seq<string>): (r: Option<seq<string>>)
    ensures r.None? <==> ids == []
    ensures r.Some? ==> r.value == ids
  {
    if ids == [] then None else Some(ids)
  }

  /** `search` needs a term and ignores anything after it. */
  function SearchArgs(args: seq<string>): (r: Option<string>)
    ensures r.None? <==> args == []
    ensures r.Some? ==> r.value == args[0]
  {
    if args == [] then None else Some(args[0])
  }

  /** `upgrade` passes whatever ids it was given, possibly none. */
  function UpgradeArgs(ids: seq<string>): (r: seq<InstallSpec>)
    ensures |r| == |ids|
    ensures forall i :: 0 <= i < |r| ==> r[i] == InstallSpec(ids[i], "")
  {
    SpecsOf(ids)
  }

  /** The ids of the given manifests, in order. */
  function IdsOf(ms: seq<Manifest>): seq<string> {
    seq(|ms|, i requires 0 <= i < |ms| => ms[i].id)
  }

  /** Naming every installed package, in listing order, upgrades exactly
      as naming none does. */
  lemma UpgradeNamingAllIsUpgradeAll(env: Manager.Env)
    ensures var listed := FsRepo.ListInstalled(env.local);
      listed.Ok? ==> Manager.Upgrade(env, UpgradeArgs(IdsOf(listed.value))) == Manager.Upgrade(env, [])
  {
    var listed := FsRepo.ListInstalled(env.local);
    if listed.Ok? && listed.value != [] {
      var ids := IdsOf(listed.value);
      Manager.UpgradeAllIsUpgradeOfInstalled(env);
      assert UpgradeArgs(ids) == Manager.LatestOf(FsRepo.ListInstalled(env.local).value);
    }
  }

  // ---------------------------------------------------------------------
  // Examples

  /** Keys that differ only in case sort by byte order, next to each other;
      case does not otherwise matter. */
  lemma SortedKeysExample()
    ensures var s := Spec("", "", "", "", 0, []);
      SortedKeys(map["Widget" := s, "apple" := s, "Apple" := s]) == ["Apple", "apple", "Widget"]
  {
    var s := Spec("", "", "", "", 0, []);
    var index := map["Widget" := s, "apple" := s, "Apple" := s];
    var keys := ["Apple", "apple", "Widget"];
    assert LowerStr("Apple") == "apple";
    assert LowerStr("apple") == "apple";
    assert LowerStr("Widget") == "widget";
    assert KeyLess("Apple", "apple");
    assert KeyLess("apple", "Widget");
    assert KeyLess("Apple", "Widget");
    SortedKeysIsUnique(index, keys);
  }
}
