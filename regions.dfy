/**
 * The region list of AzureProducts/Program.cs: the option string is split on
 * ',', ';' and ' ' with empty entries dropped, and a list longer than ten is
 * shuffled and cut to ten.
 */
module Regions {

  /** The most regions queried in one run. */
  const MaxRegions: nat := 10

  /** The regions queried when no option is given. */
  const DefaultRegionNames: seq<string> :=
    ["eastus", "westus", "centralus", "canadacentral", "brazilsouth", "auseast",
     "japaneast", "koreacentral", "eastasia", "southeastasia", "northeurope", "westeurope"]

  /** The option value used when no option is given: the default regions joined by ','. */
  const DefaultBaseRegions: string := Join(DefaultRegionNames, ',')

  /** The characters the option string is split on. */
  predicate IsSeparator(c: char)
  {
    c == ',' || c == ';' || c == ' '
  }

  /** No character of `w` is a separator. */
  predicate NoSeparator(w: string)
  {
    forall i :: 0 <= i < |w| ==> !IsSeparator(w[i])
  }

  /**
   * Splits `s` at every separator and drops empty entries; `cur` holds the
   * characters of the entry read so far.
   */
  function SplitFrom(s: string, cur: string): (r: seq<string>)
    requires NoSeparator(cur)
    ensures forall i :: 0 <= i < |r| ==> r[i] != "" && NoSeparator(r[i])
    decreases |s|
  {
    if s == [] then
      (if cur == "" then [] else [cur])
    else if IsSeparator(s[0]) then
      (if cur == "" then [] else [cur]) + SplitFrom(s[1..], "")
    else
      SplitFrom(s[1..], cur + [s[0]])
  }

  /** The option string split on ',', ';' and ' ', empty entries removed. */
  function SplitRegions(s: string): (r: seq<string>)
    ensures forall i :: 0 <= i < |r| ==> r[i] != "" && NoSeparator(r[i])
  {
    SplitFrom(s, "")
  }

  /** The characters of `s` that are not separators, in order. */
  function WithoutSeparators(s: string): string
  {
    if s == [] then "" else (if IsSeparator(s[0]) then "" else [s[0]]) + WithoutSeparators(s[1..])
  }

  /** The entries written one after the other. */
  function Concat(entries: seq<string>): string
  {
    if entries == [] then "" else entries[0] + Concat(entries[1..])
  }

  /** The entries written with `sep` between each two. */
  function Join(entries: seq<string>, sep: char): string
  {
    if |entries| == 0 then ""
    else if |entries| == 1 then entries[0]
    else entries[0] + [sep] + Join(entries[1..], sep)
  }

  lemma {:induction false} ConcatAppend(a: seq<string>, b: seq<string>)
    ensures Concat(a + b) == Concat(a) + Concat(b)
  {
    if a != [] {
      assert (a + b)[1..] == a[1..] + b;
      ConcatAppend(a[1..], b);
    } else {
      assert a + b == b;
    }
  }

  /** Splitting drops the separators and nothing else: the entries spell the non-separator characters. */
  lemma {:induction false} SplitFromKeepsText(s: string, cur: string)
    requires NoSeparator(cur)
    ensures Concat(SplitFrom(s, cur)) == cur + WithoutSeparators(s)
    decreases |s|
  {
    if s == [] {
    } else if IsSeparator(s[0]) {
      var head: seq<string> := if cur == "" then [] else [cur];
      SplitFromKeepsText(s[1..], "");
      ConcatAppend(head, SplitFrom(s[1..], ""));
    } else {
      SplitFromKeepsText(s[1..], cur + [s[0]]);
      assert cur + [s[0]] + WithoutSeparators(s[1..]) == cur + WithoutSeparators(s);
    }
  }

  /** The parsed entries spell exactly the non-separator characters of the option string. */
  lemma SplitRegionsKeepsText(s: string)
    ensures Concat(SplitRegions(s)) == WithoutSeparators(s)
  {
    SplitFromKeepsText(s, "");
  }

  /** A separator-free word is read into the current entry. */
  lemma {:induction false} SplitFromWord(w: string, rest: string, cur: string)
    requires NoSeparator(cur) && NoSeparator(w)
    ensures NoSeparator(cur + w)
    ensures SplitFrom(w + rest, cur) == SplitFrom(rest, cur + w)
    decreases |w|
  {
    if w == [] {
      assert w + rest == rest;
      assert cur + w == cur;
    } else {
      assert (w + rest)[0] == w[0];
      assert (w + rest)[1..] == w[1..] + rest;
      assert cur + [w[0]] + w[1..] == cur + w;
      SplitFromWord(w[1..], rest, cur + [w[0]]);
    }
  }

  /** Splitting entries joined by any separator gives the entries back. */
  lemma {:induction false} SplitJoin(entries: seq<string>, sep: char)
    requires IsSeparator(sep)
    requires forall i :: 0 <= i < |entries| ==> entries[i] != "" && NoSeparator(entries[i])
    ensures SplitRegions(Join(entries, sep)) == entries
  {
    if |entries| == 1 {
      assert Join(entries, sep) == entries[0] + "";
      SplitFromWord(entries[0], "", "");
      assert "" + entries[0] == entries[0];
      assert SplitFrom("", entries[0]) == [entries[0]];
    } else if |entries| > 1 {
      var rest := [sep] + Join(entries[1..], sep);
      assert Join(entries, sep) == entries[0] + rest;
      SplitFromWord(entries[0], rest, "");
      assert "" + entries[0] == entries[0];
      assert rest[0] == sep && rest[1..] == Join(entries[1..], sep);
      SplitJoin(entries[1..], sep);
    }
  }

  /** Every character of `run` is a separator. */
  predicate AllSeparators(run: string)
  {
    forall i :: 0 <= i < |run| ==> IsSeparator(run[i])
  }

  /**
   * The entries written with a run of separators before the first, between
   * each two and after the last: `seps[i]` is the run in front of
   * `entries[i]`, and the last run closes the string.
   */
  function Interleave(entries: seq<string>, seps: seq<string>): string
    requires |seps| == |entries| + 1
  {
    if entries == [] then seps[0] else seps[0] + entries[0] + Interleave(entries[1..], seps[1..])
  }

  /**
   * `entries` and `seps` describe a string the way splitting reads it: the
   * entries are non-empty and separator-free, the runs hold only separators,
   * and two entries are always parted by at least one separator.
   */
  predicate Gapped(entries: seq<string>, seps: seq<string>)
  {
    && |seps| == |entries| + 1
    && (forall i :: 0 <= i < |entries| ==> entries[i] != "" && NoSeparator(entries[i]))
    && (forall i :: 0 <= i < |seps| ==> AllSeparators(seps[i]))
    && (forall i :: 0 < i < |entries| ==> seps[i] != "")
  }

  /** Separators met between entries are skipped. */
  lemma {:induction false} SkipSeparators(run: string, rest: string)
    requires AllSeparators(run)
    ensures SplitFrom(run + rest, "") == SplitFrom(rest, "")
    decreases |run|
  {
    if run == [] {
      assert run + rest == rest;
    } else {
      assert (run + rest)[0] == run[0];
      assert (run + rest)[1..] == run[1..] + rest;
      SkipSeparators(run[1..], rest);
    }
  }

  /** A separator ends the entry being read. */
  lemma FlushAtSeparators(run: string, rest: string, cur: string)
    requires AllSeparators(run) && run != "" && NoSeparator(cur) && cur != ""
    ensures SplitFrom(run + rest, cur) == [cur] + SplitFrom(run + rest, "")
  {
    assert (run + rest)[0] == run[0];
    assert (run + rest)[1..] == run[1..] + rest;
    SkipSeparators(run[1..], rest);
    SkipSeparators(run, rest);
  }

  /**
   * Splitting a string made of entries parted by separator runs, with any
   * separators before the first entry and after the last, gives exactly
   * those entries.
   */
  lemma {:induction false} SplitInterleaved(entries: seq<string>, seps: seq<string>)
    requires Gapped(entries, seps)
    ensures SplitRegions(Interleave(entries, seps)) == entries
    decreases |entries|
  {
    if entries == [] {
      SkipSeparators(seps[0], "");
      assert seps[0] + "" == seps[0];
    } else {
      var tail := Interleave(entries[1..], seps[1..]);
      assert Interleave(entries, seps) == seps[0] + (entries[0] + tail);
      SkipSeparators(seps[0], entries[0] + tail);
      SplitFromWord(entries[0], tail, "");
      assert "" + entries[0] == entries[0];
      assert Gapped(entries[1..], seps[1..]) by {
        assert forall i :: 0 < i < |entries| - 1 ==> seps[1..][i] == seps[i + 1];
      }
      SplitInterleaved(entries[1..], seps[1..]);
      if entries[1..] == [] && seps[1] == "" {
        assert tail == "";
      } else {
        assert seps[1] != "";
        assert tail == seps[1] + (tail[|seps[1]|..]);
        FlushAtSeparators(seps[1], tail[|seps[1]|..], entries[0]);
        assert entries == [entries[0]] + entries[1..];
      }
    }
  }

  /** A separator in front of a decomposed string joins the first separator run. */
  lemma SeparatorInFront(c: char, e: seq<string>, g: seq<string>) returns (seps: seq<string>)
    requires IsSeparator(c) && Gapped(e, g)
    ensures Gapped(e, seps) && [c] + Interleave(e, g) == Interleave(e, seps)
  {
    seps := [[c] + g[0]] + g[1..];
    if e != [] {
      assert Interleave(e, seps) == seps[0] + e[0] + Interleave(e[1..], g[1..]);
    }
    assert AllSeparators(seps[0]) by {
      assert forall i :: 0 < i < |seps[0]| ==> seps[0][i] == g[0][i - 1];
    }
    assert forall i :: 0 < i < |seps| ==> seps[i] == g[i];
  }

  /** A character written right before the first entry, with no run in front of it, opens that entry. */
  lemma GlueToFirst(c: char, e: seq<string>, g: seq<string>)
    requires |g| == |e| + 1 && e != [] && g[0] == ""
    ensures [c] + Interleave(e, g) == Interleave([[c] + e[0]] + e[1..], g)
  {
    var entries := [[c] + e[0]] + e[1..];
    assert entries[1..] == e[1..];
  }

  /** A character glued to the first entry becomes part of it. */
  lemma CharIntoEntry(c: char, e: seq<string>, g: seq<string>) returns (entries: seq<string>)
    requires !IsSeparator(c) && Gapped(e, g) && e != [] && g[0] == ""
    ensures Gapped(entries, g) && [c] + Interleave(e, g) == Interleave(entries, g)
  {
    var w := [c] + e[0];
    entries := [w] + e[1..];
    GlueToFirst(c, e, g);
    assert NoSeparator(w) by {
      forall i | 0 < i < |w| ensures !IsSeparator(w[i]) {
        assert w[i] == e[0][i - 1];
      }
    }
    forall i | 0 < i < |entries| ensures entries[i] == e[i] {
    }
  }

  /** A character in front of a separator run, or of nothing, is an entry of its own. */
  lemma CharAsEntry(c: char, e: seq<string>, g: seq<string>) returns (entries: seq<string>, seps: seq<string>)
    requires !IsSeparator(c) && Gapped(e, g) && (e == [] || g[0] != "")
    ensures Gapped(entries, seps) && [c] + Interleave(e, g) == Interleave(entries, seps)
  {
    entries, seps := [[c]] + e, [""] + g;
    assert Interleave(entries, seps) == "" + [c] + Interleave(e, g);
    assert forall i :: 0 < i < |entries| ==> entries[i] == e[i - 1];
    assert forall i :: 0 < i < |seps| ==> seps[i] == g[i - 1];
  }

  /** Every string is some list of entries parted by separator runs. */
  lemma {:induction false} Decompose(s: string) returns (entries: seq<string>, seps: seq<string>)
    ensures Gapped(entries, seps) && s == Interleave(entries, seps)
    decreases |s|
  {
    if s == [] {
      entries, seps := [], [""];
    } else {
      var e, g := Decompose(s[1..]);
      assert s == [s[0]] + s[1..];
      if IsSeparator(s[0]) {
        entries := e;
        seps := SeparatorInFront(s[0], e, g);
      } else if e != [] && g[0] == "" {
        seps := g;
        entries := CharIntoEntry(s[0], e, g);
      } else {
        entries, seps := CharAsEntry(s[0], e, g);
      }
    }
  }

  /**
   * The parsed entries of `s` are exactly the one list of non-empty,
   * separator-free entries that `s` writes out parted by separator runs.
   */
  lemma SplitRegionsExactly(s: string, entries: seq<string>)
    ensures SplitRegions(s) == entries <==> exists seps :: Gapped(entries, seps) && s == Interleave(entries, seps)
  {
    var e, g := Decompose(s);
    SplitInterleaved(e, g);
    if exists seps :: Gapped(entries, seps) && s == Interleave(entries, seps) {
      var seps :| Gapped(entries, seps) && s == Interleave(entries, seps);
      SplitInterleaved(entries, seps);
    }
  }

  /** Regions written with a comma and a space between them are read one by one. */
  lemma SplitCommaSpace()
    ensures SplitRegions("eastus, westus") == ["eastus", "westus"]
  {
    var entries := ["eastus", "westus"];
    var seps := ["", ", ", ""];
    assert Gapped(entries, seps);
    assert Interleave(entries, seps) == "eastus, westus";
    SplitInterleaved(entries, seps);
  }

  /** The default option string names twelve regions, so a run without options is capped. */
  lemma DefaultBaseRegionsCount()
    ensures SplitRegions(DefaultBaseRegions) == DefaultRegionNames
    ensures |SplitRegions(DefaultBaseRegions)| == 12 > MaxRegions
  {
    forall i | 0 <= i < |DefaultRegionNames|
      ensures DefaultRegionNames[i] != "" && NoSeparator(DefaultRegionNames[i])
    {
    }
    SplitJoin(DefaultRegionNames, ',');
  }

  /**
   * `order` lists every index below `n` exactly once: the order a shuffle of
   * `n` entries puts them in.
   */
  ghost predicate IsShuffle(order: seq<nat>, n: nat)
  {
    && |order| == n
    && (forall i :: 0 <= i < n ==> order[i] < n)
    && (forall i, j :: 0 <= i < j < n ==> order[i] != order[j])
    && (forall k :: 0 <= k < n ==> k in order)
  }

  /** The entries of `s` in the order `order` names them. */
  function Pick(s: seq<string>, order: seq<nat>): (r: seq<string>)
    requires forall i :: 0 <= i < |order| ==> order[i] < |s|
    ensures |r| == |order|
  {
    seq(|order|, i requires 0 <= i < |order| => s[order[i]])
  }

  /** Taking the last index out of a shuffle leaves a shuffle of one entry fewer. */
  lemma ShuffleWithoutLast(order: seq<nat>, n: nat, j: nat)
    requires IsShuffle(order, n) && j < n && order[j] == n - 1
    ensures IsShuffle(order[..j] + order[j + 1..], n - 1)
  {
    var rest := order[..j] + order[j + 1..];
    forall i | 0 <= i < n - 1 ensures rest[i] < n - 1 {
      if i < j { assert rest[i] == order[i]; } else { assert rest[i] == order[i + 1]; }
    }
    forall k | 0 <= k < n - 1 ensures k in rest {
      assert k in order;
      var i :| 0 <= i < |order| && order[i] == k;
      if i < j { assert rest[i] == k; } else { assert rest[i - 1] == k; }
    }
    forall a, b | 0 <= a < b < n - 1 ensures rest[a] != rest[b] {
      var a' := if a < j then a else a + 1;
      var b' := if b < j then b else b + 1;
      assert rest[a] == order[a'] && rest[b] == order[b'];
    }
  }

  /** Picking with two orders one after the other picks both in turn. */
  lemma PickConcat(s: seq<string>, a: seq<nat>, b: seq<nat>)
    requires forall i :: 0 <= i < |a| ==> a[i] < |s|
    requires forall i :: 0 <= i < |b| ==> b[i] < |s|
    ensures multiset(Pick(s, a + b)) == multiset(Pick(s, a)) + multiset(Pick(s, b))
  {
    assert Pick(s, a + b) == Pick(s, a) + Pick(s, b);
  }

  /** An order that stays below `|t|` picks the same from `t + u` as from `t`. */
  lemma PickPrefix(t: seq<string>, u: seq<string>, a: seq<nat>)
    requires forall i :: 0 <= i < |a| ==> a[i] < |t|
    ensures Pick(t + u, a) == Pick(t, a)
  {
  }

  /** Picking with an order that names index `k` at position `j` picks `s[k]` once, plus the rest. */
  lemma PickAround(s: seq<string>, order: seq<nat>, j: nat)
    requires j < |order| && forall i :: 0 <= i < |order| ==> order[i] < |s|
    ensures multiset(Pick(s, order)) ==
      multiset(Pick(s, order[..j])) + multiset{s[order[j]]} + multiset(Pick(s, order[j + 1..]))
  {
    var a, b := order[..j], order[j + 1..];
    assert order == a + ([order[j]] + b);
    PickConcat(s, a, [order[j]] + b);
    PickConcat(s, [order[j]], b);
    assert Pick(s, [order[j]]) == [s[order[j]]];
  }

  /**
   * Picking with an order that names the last entry at position `j` picks that
   * entry once, plus what the rest of the order picks from the entries before it.
   */
  lemma PickWithoutLast(s: seq<string>, order: seq<nat>, j: nat)
    requires |s| > 0 && j < |order| && order[j] == |s| - 1
    requires forall i :: 0 <= i < |order| && i != j ==> order[i] < |s| - 1
    ensures multiset(Pick(s, order)) == multiset(Pick(s[..|s| - 1], order[..j] + order[j + 1..])) + multiset{s[|s| - 1]}
  {
    var n, s', x := |s|, s[..|s| - 1], s[|s| - 1];
    var a, b := order[..j], order[j + 1..];
    assert forall i :: 0 <= i < |a| ==> a[i] < n - 1 by {
      assert forall i :: 0 <= i < |a| ==> a[i] == order[i];
    }
    assert forall i :: 0 <= i < |b| ==> b[i] < n - 1 by {
      assert forall i :: 0 <= i < |b| ==> b[i] == order[j + 1 + i];
    }
    PickAround(s, order, j);
    assert Pick(s, a) == Pick(s', a) && Pick(s, b) == Pick(s', b) by {
      assert s == s' + [x];
      PickPrefix(s', [x], a);
      PickPrefix(s', [x], b);
    }
    PickConcat(s', a, b);
  }

  /** A shuffle of a list is a permutation of it. */
  lemma {:induction false} PickShuffle(s: seq<string>, order: seq<nat>)
    requires IsShuffle(order, |s|)
    ensures multiset(Pick(s, order)) == multiset(s)
    decreases |s|
  {
    var n := |s|;
    if n > 0 {
      assert n - 1 in order;
      var j :| 0 <= j < |order| && order[j] == n - 1;
      ShuffleWithoutLast(order, n, j);
      PickShuffle(s[..n - 1], order[..j] + order[j + 1..]);
      PickWithoutLast(s, order, j);
      assert s == s[..n - 1] + [s[n - 1]];
    }
  }

  /**
   * The regions queried: a list of more than MaxRegions is put in the order a
   * shuffle gives and cut to its first MaxRegions entries; a shorter list is
   * kept as it is.
   */
  function CapRegions(regions: seq<string>, order: seq<nat>): (r: seq<string>)
    requires |regions| > MaxRegions ==> IsShuffle(order, |regions|)
    ensures |regions| <= MaxRegions ==> r == regions
    ensures |regions| > MaxRegions ==> |r| == MaxRegions
    ensures multiset(r) <= multiset(regions)
  {
    if |regions| > MaxRegions then
      var shuffled := Pick(regions, order);
      PickShuffle(regions, order);
      assert shuffled == shuffled[..MaxRegions] + shuffled[MaxRegions..];
      shuffled[..MaxRegions]
    else
      regions
  }
}
