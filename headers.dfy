/** The header clean-up at the start of the dashboard's sheet fetch: the
    column filter that drops blank and underscore-prefixed headers and stops
    at "DC Ratio", and the loop that makes repeated header names unique. */
module Headers {
  import opened Text
  import opened Seqs

  /** The column after which the header scan stops. */
  const Sentinel: string := "DC Ratio"

  /** A stripped header is kept when it is non-empty and does not start with
      an underscore. */
  predicate Keepable(col: string) {
    col != [] && col[0] != '_'
  }

  /** The position of the first header that strips to "DC Ratio", if any. */
  function SentinelIndex(header: seq<string>): (r: Option<nat>)
    ensures r.None? ==> forall i :: 0 <= i < |header| ==> Strip(header[i]) != Sentinel
    ensures r.Some? ==> (r.value < |header| && Strip(header[r.value]) == Sentinel
                         && forall i :: 0 <= i < r.value ==> Strip(header[i]) != Sentinel)
  {
    if header == [] then None
    else if Strip(header[0]) == Sentinel then Some(0)
    else match SentinelIndex(header[1..])
      case None => None
      case Some(k) => Some(k + 1)
  }

  /** How many headers the scan looks at: up to and including the first
      "DC Ratio", or all of them. */
  function ScanEnd(header: seq<string>): (n: nat)
    ensures n <= |header|
  {
    match SentinelIndex(header)
    case None => |header|
    case Some(k) => k + 1
  }

  /** What the filter loop has built after looking at headers `0 .. i-1`:
      the kept names, stripped and keepable, with their increasing positions,
      and every keepable position among them. */
  ghost predicate ScannedUpTo(header: seq<string>, kept: seq<string>, keep: seq<nat>, i: nat)
    requires i <= |header|
  {
    && |kept| == |keep| <= i
    && (forall k :: 0 <= k < |keep| ==>
          keep[k] < i && kept[k] == Strip(header[keep[k]]) && Keepable(kept[k]))
    && (forall k, l :: 0 <= k < l < |keep| ==> keep[k] < keep[l])
    && (forall j :: 0 <= j < i && Keepable(Strip(header[j])) ==> j in keep)
  }

  /** The header filter loop. `kept` is the list of kept (stripped) names and
      `keep` the positions they came from; the page's final truncation of
      `keep` at the sentinel position is carried out and changes nothing. */
  method FilterHeader(header: seq<string>) returns (kept: seq<string>, keep: seq<nat>)
    ensures |kept| == |keep|
    ensures forall k :: 0 <= k < |keep| ==>
      keep[k] < ScanEnd(header) && kept[k] == Strip(header[keep[k]]) && Keepable(kept[k])
    ensures forall k, l :: 0 <= k < l < |keep| ==> keep[k] < keep[l]
    ensures forall i :: 0 <= i < ScanEnd(header) && Keepable(Strip(header[i])) ==> i in keep
    ensures SentinelIndex(header).Some? ==> |kept| > 0 && kept[|kept| - 1] == Sentinel
  {
    var stopIndex;
    kept, keep, stopIndex := ScanHeader(header);
    if stopIndex.Some? {
      var n := stopIndex.value + 1;
      assert keep[..|keep|] == keep;
      keep := keep[..if n < |keep| then n else |keep|];
    }
  }

  /** One pass of the loop body keeps the scan's invariant. */
  lemma ScanStep(header: seq<string>, kept: seq<string>, keep: seq<nat>, i: nat)
    requires i < |header| && ScannedUpTo(header, kept, keep, i)
    ensures Keepable(Strip(header[i])) ==>
      ScannedUpTo(header, kept + [Strip(header[i])], keep + [i], i + 1)
    ensures !Keepable(Strip(header[i])) ==> ScannedUpTo(header, kept, keep, i + 1)
  {
  }

  /** The loop itself: it stops after the first "DC Ratio" and reports where. */
  method ScanHeader(header: seq<string>) returns (kept: seq<string>, keep: seq<nat>, stopIndex: Option<nat>)
    ensures stopIndex == SentinelIndex(header)
    ensures ScannedUpTo(header, kept, keep, ScanEnd(header))
    ensures stopIndex.Some? ==> |kept| > 0 && kept[|kept| - 1] == Sentinel
  {
    kept, keep := [], [];
    stopIndex := None;
    var i := 0;
    while i < |header|
      invariant i <= |header|
      invariant ScannedUpTo(header, kept, keep, i)
      invariant forall j :: 0 <= j < i ==> Strip(header[j]) != Sentinel
    {
      var col := Strip(header[i]);
      ScanStep(header, kept, keep, i);
      if Keepable(col) {
        kept := kept + [col];
        keep := keep + [i];
      }
      if col == Sentinel {
        stopIndex := Some(i);
        SentinelAt(header, i);
        return;
      }
      i := i + 1;
    }
    SentinelAt(header, i);
  }

  /** The first "DC Ratio" is at `i`, or there is none when `i` is the
      header's length; the scan then ends after it, or at the end. */
  lemma SentinelAt(header: seq<string>, i: nat)
    requires i <= |header| && forall j :: 0 <= j < i ==> Strip(header[j]) != Sentinel
    requires i < |header| ==> Strip(header[i]) == Sentinel
    ensures i < |header| ==> SentinelIndex(header) == Some(i) && ScanEnd(header) == i + 1
    ensures i == |header| ==> SentinelIndex(header).None? && ScanEnd(header) == i
  {
  }

  // ---------------------------------------------------------------------------
  // De-duplication

  /** The name tried for the `k`-th renaming of `c`: `f"{c}_{k}"`. */
  function Suffixed(c: string, k: nat): string {
    c + "_" + NatToString(k)
  }

  /** `k` is the smallest suffix from 1 up whose name is not yet taken. */
  ghost predicate SmallestFreeSuffix(c: string, k: nat, seen: seq<string>) {
    k >= 1 && Suffixed(c, k) !in seen
    && forall j :: 1 <= j < k ==> Suffixed(c, j) in seen
  }

  /** What the loop appends for header `c` when `seen` has been emitted so
      far: `c` itself if it is not taken, else its smallest free suffix. */
  ghost predicate RenamedAs(c: string, seen: seq<string>, x: string) {
    if c !in seen then x == c
    else exists k :: SmallestFreeSuffix(c, k, seen) && x == Suffixed(c, k)
  }

  /** `unique` is what the de-duplication loop produces from `headers`. */
  ghost predicate IsDedupOf(headers: seq<string>, unique: seq<string>) {
    |unique| == |headers|
    && forall i :: 0 <= i < |headers| ==> RenamedAs(Strip(headers[i]), unique[..i], unique[i])
  }

  /** Different suffixes spell different names. */
  lemma SuffixedInjective(c: string, j: nat, k: nat)
    requires Suffixed(c, j) == Suffixed(c, k)
    ensures j == k
  {
    var p := c + "_";
    assert Suffixed(c, j)[|p|..] == NatToString(j);
    assert Suffixed(c, k)[|p|..] == NatToString(k);
    NatToStringInjective(j, k);
  }

  /** If the names for suffixes 1..k are all taken, at least k names have
      been emitted: the suffix search ends by suffix |seen| + 1. */
  lemma {:induction false} TakenSuffixesFit(c: string, k: nat, seen: seq<string>)
    requires forall j :: 1 <= j <= k ==> Suffixed(c, j) in seen
    ensures k <= |seen|
  {
    if k > 0 {
      var x := Suffixed(c, k);
      var p :| 0 <= p < |seen| && seen[p] == x;
      var rest := seen[..p] + seen[p + 1..];
      forall j | 1 <= j <= k - 1 ensures Suffixed(c, j) in rest {
        if Suffixed(c, j) == x {
          SuffixedInjective(c, j, k);
        }
        var q :| 0 <= q < |seen| && seen[q] == Suffixed(c, j);
        if q < p {
          assert rest[q] == seen[q];
        } else {
          assert rest[q - 1] == seen[q];
        }
      }
      TakenSuffixesFit(c, k - 1, rest);
    }
  }

  /** The de-duplication loop: each header is stripped again; a name not yet
      emitted is kept, a taken one gets the smallest free suffix `_1`, `_2`, ... */
  method Dedup(headers: seq<string>) returns (unique: seq<string>)
    ensures IsDedupOf(headers, unique)
    ensures Distinct(unique)
  {
    unique := [];
    for i := 0 to |headers|
      invariant |unique| == i
      invariant forall j :: 0 <= j < i ==> RenamedAs(Strip(headers[j]), unique[..j], unique[j])
      invariant Distinct(unique)
    {
      var col := Strip(headers[i]);
      var newCol := col;
      if col in unique {
        var suffix := 1;
        newCol := Suffixed(col, suffix);
        while newCol in unique
          invariant suffix >= 1 && newCol == Suffixed(col, suffix)
          invariant forall j :: 1 <= j < suffix ==> Suffixed(col, j) in unique
          decreases |unique| + 1 - suffix
        {
          TakenSuffixesFit(col, suffix, unique);
          suffix := suffix + 1;
          newCol := Suffixed(col, suffix);
        }
        assert SmallestFreeSuffix(col, suffix, unique);
      }
      assert RenamedAs(col, unique, newCol);
      assert newCol !in unique;
      var before := unique;
      unique := unique + [newCol];
      assert forall j :: 0 <= j <= i ==> unique[..j] == before[..j];
    }
  }

  // ---------------------------------------------------------------------------
  // Properties of the de-duplication

  function StripAll(headers: seq<string>): (r: seq<string>)
    ensures |r| == |headers| && forall i :: 0 <= i < |r| ==> r[i] == Strip(headers[i])
  {
    seq(|headers|, i requires 0 <= i < |headers| => Strip(headers[i]))
  }

  /** A suffixed name is never the name it was made from. */
  lemma SuffixedDiffers(c: string, k: nat)
    ensures Suffixed(c, k) != c
  {
    assert |Suffixed(c, k)| > |c|;
  }

  /** A header comes out under its own (stripped) name exactly when that name
      has not been emitted before it. */
  lemma KeptNameIffFree(headers: seq<string>, unique: seq<string>, i: nat)
    requires IsDedupOf(headers, unique) && i < |headers|
    ensures unique[i] == Strip(headers[i]) <==> Strip(headers[i]) !in unique[..i]
  {
    var c := Strip(headers[i]);
    if c in unique[..i] {
      var k :| SmallestFreeSuffix(c, k, unique[..i]) && unique[i] == Suffixed(c, k);
      SuffixedDiffers(c, k);
    }
  }

  /** An element of a distinct sequence does not occur before its position. */
  lemma DistinctNotBefore(s: seq<string>, i: nat)
    requires Distinct(s) && i < |s|
    ensures s[i] !in s[..i]
  {
    forall j | 0 <= j < i
      ensures s[..i][j] != s[i]
    {
      assert s[..i][j] == s[j];
    }
  }

  /** Two equal sequences extended by equal elements stay equal. */
  lemma PrefixStep(u1: seq<string>, u2: seq<string>, i: nat)
    requires i < |u1| && i < |u2| && u1[..i] == u2[..i] && u1[i] == u2[i]
    ensures u1[..i + 1] == u2[..i + 1]
  {
    assert u1[..i + 1] == u1[..i] + [u1[i]];
    assert u2[..i + 1] == u2[..i] + [u2[i]];
  }

  /** A header list whose stripped names are already distinct comes back
      unchanged (apart from the strip). */
  lemma {:induction false} DedupOfUniqueIsIdentity(headers: seq<string>, unique: seq<string>)
    requires IsDedupOf(headers, unique)
    requires Distinct(StripAll(headers))
    ensures unique == StripAll(headers)
  {
    var s := StripAll(headers);
    var i := 0;
    while i < |headers|
      invariant i <= |headers| && unique[..i] == s[..i]
    {
      assert RenamedAs(s[i], unique[..i], unique[i]);
      DistinctNotBefore(s, i);
      PrefixStep(unique, s, i);
      i := i + 1;
    }
    assert unique == unique[..i] && s == s[..i];
  }

  /** The loop's choice for one header is determined by what was emitted
      before it. */
  lemma RenamedAsUnique(c: string, seen: seq<string>, x: string, y: string)
    requires RenamedAs(c, seen, x) && RenamedAs(c, seen, y)
    ensures x == y
  {
    if c in seen {
      var k1: nat :| SmallestFreeSuffix(c, k1, seen) && x == Suffixed(c, k1);
      var k2: nat :| SmallestFreeSuffix(c, k2, seen) && y == Suffixed(c, k2);
      assert !(k1 < k2) && !(k2 < k1);
    }
  }

  /** The renaming is a function of the input: two results of the loop on
      the same headers are equal, so re-parsing a sheet gives the same names. */
  lemma {:induction false} DedupDeterministic(headers: seq<string>, u1: seq<string>, u2: seq<string>)
    requires IsDedupOf(headers, u1) && IsDedupOf(headers, u2)
    ensures u1 == u2
  {
    var i := 0;
    while i < |headers|
      invariant i <= |headers| && u1[..i] == u2[..i]
    {
      RenamedAsUnique(Strip(headers[i]), u1[..i], u1[i], u2[i]);
      PrefixStep(u1, u2, i);
      i := i + 1;
    }
    assert u1 == u1[..i] && u2 == u2[..i];
  }

  /** The sheet's repeated columns: ["A","B","A","A"] becomes
      ["A","B","A_1","A_2"] (the counter starts at 1). */
  lemma DedupExample()
    ensures IsDedupOf(["A", "B", "A", "A"], ["A", "B", "A_1", "A_2"])
  {
    var hs := ["A", "B", "A", "A"];
    var u := ["A", "B", "A_1", "A_2"];
    assert Strip("A") == "A";
    assert Strip("B") == "B";
    assert NatToString(1) == "1" && NatToString(2) == "2";
    assert Suffixed("A", 1) == "A_1" && Suffixed("A", 2) == "A_2";
    assert u[..2] == ["A", "B"] && u[..3] == ["A", "B", "A_1"];
    assert SmallestFreeSuffix("A", 1, u[..2]);
    assert SmallestFreeSuffix("A", 2, u[..3]);
  }

  /** A generated name can take a later header's own name, which is then
      renamed on its first appearance: ["A","A","A_1"] becomes
      ["A","A_1","A_1_1"]. */
  lemma DedupRenamesCollidingOriginal()
    ensures IsDedupOf(["A", "A", "A_1"], ["A", "A_1", "A_1_1"])
  {
    var u := ["A", "A_1", "A_1_1"];
    assert Strip("A") == "A";
    assert Strip("A_1") == "A_1";
    assert NatToString(1) == "1";
    assert Suffixed("A", 1) == "A_1" && Suffixed("A_1", 1) == "A_1_1";
    assert u[..1] == ["A"] && u[..2] == ["A", "A_1"];
    assert SmallestFreeSuffix("A", 1, u[..1]);
    assert SmallestFreeSuffix("A_1", 1, u[..2]);
  }
}
