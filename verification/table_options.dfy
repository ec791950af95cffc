/** The two fixed regular expressions utils/dez_parser.py runs over an entity's
    `table_options` text, written out as scanners:

      re.search(r"PARTITION BY\s+[^(]+\(\s*([^) ,]+)", opts, re.IGNORECASE)
      re.search(r"CLUSTER BY\s+([^\n\r]+)", opts, re.IGNORECASE)

    Each scanner reproduces the backtracking of Python's engine for its pattern:
    `search` takes the leftmost start position at which the pattern matches, and within
    a match the greedy `\s*` / `\s+` give back characters when the greedy choice leaves
    nothing the following group can start with. */
module TableOptions {
  import opened Wrappers
  import opened Text

  /** `lit` (given in lower case) occurs at `p`, ignoring the case of ASCII letters. */
  predicate MatchesAt(s: string, p: nat, lit: string) {
    p + |lit| <= |s| && Lower(s[p..p + |lit|]) == lit
  }

  /** The end of the maximal run of whitespace starting at `i`. */
  function SpaceRunEnd(s: string, i: nat): (j: nat)
    requires i <= |s|
    ensures i <= j <= |s|
    ensures forall k :: i <= k < j ==> IsSpace(s[k])
    ensures j < |s| ==> !IsSpace(s[j])
    decreases |s| - i
  {
    if i < |s| && IsSpace(s[i]) then SpaceRunEnd(s, i + 1) else i
  }

  /** The first `c` at or after `i`, or `|s|` when there is none. */
  function FindFrom(s: string, i: nat, c: char): (j: nat)
    requires i <= |s|
    ensures i <= j <= |s|
    ensures forall k :: i <= k < j ==> s[k] != c
    ensures j < |s| ==> s[j] == c
    decreases |s| - i
  {
    if i == |s| || s[i] == c then i else FindFrom(s, i + 1, c)
  }

  /** A character of the class `[^) ,]`. */
  predicate TokenChar(c: char) {
    c != ')' && c != ' ' && c != ','
  }

  /** The end of the maximal run of `[^) ,]` characters starting at `i`. */
  function TokenRunEnd(s: string, i: nat): (j: nat)
    requires i <= |s|
    ensures i <= j <= |s|
    ensures forall k :: i <= k < j ==> TokenChar(s[k])
    ensures j < |s| ==> !TokenChar(s[j])
    decreases |s| - i
  {
    if i < |s| && TokenChar(s[i]) then TokenRunEnd(s, i + 1) else i
  }

  predicate LineBreak(c: char) {
    c == '\n' || c == '\r'
  }

  /** The end of the maximal run of `[^\n\r]` characters starting at `i`. */
  function LineEnd(s: string, i: nat): (j: nat)
    requires i <= |s|
    ensures i <= j <= |s|
    ensures forall k :: i <= k < j ==> !LineBreak(s[k])
    ensures j < |s| ==> LineBreak(s[j])
    decreases |s| - i
  {
    if i < |s| && !LineBreak(s[i]) then LineEnd(s, i + 1) else i
  }

  /** `\s*` can stop at `k` after starting at `i`, and `[^) ,]+` can start there. */
  predicate TokenStart(s: string, i: nat, k: nat) {
    i <= k < |s| && (forall j :: i <= j < k ==> IsSpace(s[j])) && TokenChar(s[k])
  }

  /** The start the engine settles on: greedy `\s*` gives back characters one at a
      time, so the group starts at the LAST admissible position. */
  predicate GreedyTokenStart(s: string, i: nat, k: nat) {
    TokenStart(s, i, k) && forall k2 :: k < k2 < |s| ==> !TokenStart(s, i, k2)
  }

  /** `\s*` can stop at `k` after starting at `i`, and `[^\n\r]+` can start there. */
  predicate LineStart(s: string, i: nat, k: nat) {
    i <= k < |s| && (forall j :: i <= j < k ==> IsSpace(s[j])) && !LineBreak(s[k])
  }

  predicate GreedyLineStart(s: string, i: nat, k: nat) {
    LineStart(s, i, k) && forall k2 :: k < k2 < |s| ==> !LineStart(s, i, k2)
  }

  /** `\s*([^) ,]+)` once `\s*` has greedily taken `s[lo..k]`: the group starts at the
      largest `k' <= k` at which a `[^) ,]` character stands, and runs as far as it can. */
  function TokenGroup(s: string, lo: nat, k: nat): (g: Option<string>)
    requires lo <= k <= |s|
    ensures g.Some? ==> |g.value| > 0 && forall j :: 0 <= j < |g.value| ==> TokenChar(g.value[j])
    ensures g.None? ==> forall k' :: lo <= k' <= k && k' < |s| ==> !TokenChar(s[k'])
    ensures g.Some? ==> exists k' :: && lo <= k' <= k && k' < |s| && TokenChar(s[k'])
                                     && (forall j :: k' < j <= k && j < |s| ==> !TokenChar(s[j]))
                                     && g.value == s[k'..TokenRunEnd(s, k')]
    decreases k - lo
  {
    if k < |s| && TokenChar(s[k]) then Some(s[k..TokenRunEnd(s, k)])
    else if k == lo then None
    else TokenGroup(s, lo, k - 1)
  }

  /** `\s*([^\n\r]+)` once `\s*` has greedily taken `s[lo..k]`: the group starts at the
      largest `k' <= k` that is not a line break, and runs to the end of the line. */
  function LineGroup(s: string, lo: nat, k: nat): (g: Option<string>)
    requires lo <= k <= |s|
    ensures g.Some? ==> |g.value| > 0 && forall j :: 0 <= j < |g.value| ==> !LineBreak(g.value[j])
    ensures g.None? ==> forall k' :: lo <= k' <= k && k' < |s| ==> LineBreak(s[k'])
    ensures g.Some? ==> exists k' :: && lo <= k' <= k && k' < |s| && !LineBreak(s[k'])
                                     && (forall j :: k' < j <= k && j < |s| ==> LineBreak(s[j]))
                                     && g.value == s[k'..LineEnd(s, k')]
    decreases k - lo
  {
    if k < |s| && !LineBreak(s[k]) then Some(s[k..LineEnd(s, k)])
    else if k == lo then None
    else LineGroup(s, lo, k - 1)
  }

  /** Whitespace from `i` up to `k` lies inside the maximal run. */
  lemma {:induction false} SpaceRunCovers(s: string, i: nat, k: nat)
    requires i <= k <= |s|
    requires forall j :: i <= j < k ==> IsSpace(s[j])
    ensures k <= SpaceRunEnd(s, i)
    decreases k - i
  {
    if i < k {
      SpaceRunCovers(s, i + 1, k);
    }
  }

  /** `\s*([^) ,]+)` matched at `i`; `SpaceThenTokenGreedy` says which group it yields. */
  function SpaceThenToken(s: string, i: nat): (g: Option<string>)
    requires i <= |s|
    ensures g.Some? ==> |g.value| > 0 && forall j :: 0 <= j < |g.value| ==> TokenChar(g.value[j])
  {
    TokenGroup(s, i, SpaceRunEnd(s, i))
  }

  /** The group of `\s*([^) ,]+)`: it exists exactly when `[^) ,]` can start after some
      whitespace prefix, and it is the maximal run from the last such start. */
  lemma SpaceThenTokenGreedy(s: string, i: nat)
    requires i <= |s|
    ensures SpaceThenToken(s, i).Some? <==> exists k: nat :: TokenStart(s, i, k)
    ensures forall k: nat :: GreedyTokenStart(s, i, k) ==> SpaceThenToken(s, i) == Some(s[k..TokenRunEnd(s, k)])
  {
    var e := SpaceRunEnd(s, i);
    var g := TokenGroup(s, i, e);
    forall k: nat | TokenStart(s, i, k) ensures g.Some? {
      SpaceRunCovers(s, i, k);
    }
    if g.Some? {
      var k' :| && i <= k' <= e && k' < |s| && TokenChar(s[k'])
                && (forall j :: k' < j <= e && j < |s| ==> !TokenChar(s[j]))
                && g.value == s[k'..TokenRunEnd(s, k')];
      assert TokenStart(s, i, k');
      forall k: nat | GreedyTokenStart(s, i, k) ensures k == k' {
        SpaceRunCovers(s, i, k);
      }
    }
  }

  /** `\s*([^\n\r]+)` matched at `i`, in the same terms. */
  function SpaceThenLine(s: string, i: nat): (g: Option<string>)
    requires i <= |s|
    ensures g.Some? ==> |g.value| > 0 && forall j :: 0 <= j < |g.value| ==> !LineBreak(g.value[j])
  {
    LineGroup(s, i, SpaceRunEnd(s, i))
  }

  /** The group of `\s*([^\n\r]+)`: it exists exactly when a character other than a line
      break can start after some whitespace prefix, and it is the rest of the line from
      the last such start. */
  lemma SpaceThenLineGreedy(s: string, i: nat)
    requires i <= |s|
    ensures SpaceThenLine(s, i).Some? <==> exists k: nat :: LineStart(s, i, k)
    ensures forall k: nat :: GreedyLineStart(s, i, k) ==> SpaceThenLine(s, i) == Some(s[k..LineEnd(s, k)])
  {
    var e := SpaceRunEnd(s, i);
    var g := LineGroup(s, i, e);
    forall k: nat | LineStart(s, i, k) ensures g.Some? {
      SpaceRunCovers(s, i, k);
    }
    if g.Some? {
      var k' :| && i <= k' <= e && k' < |s| && !LineBreak(s[k'])
                && (forall j :: k' < j <= e && j < |s| ==> LineBreak(s[j]))
                && g.value == s[k'..LineEnd(s, k')];
      assert LineStart(s, i, k');
      forall k: nat | GreedyLineStart(s, i, k) ensures k == k' {
        SpaceRunCovers(s, i, k);
      }
    }
  }

  /** `PARTITION BY\s+[^(]+\(` matches `s[p..i]`: the keyword in any case, a whitespace
      character, at least one more character and no `(` up to the `(` ending at `i`. */
  predicate PartitionPrefix(s: string, p: nat, i: nat) {
    MatchesAt(s, p, "partition by") && p + 12 < |s| && IsSpace(s[p + 12]) && ParenEnd(s, p + 12, i)
  }

  /** `[^(]+\(` matches `s[q + 1..i]` after the whitespace character at `q`. */
  predicate ParenEnd(s: string, q: nat, i: nat) {
    q + 3 <= i <= |s| && s[i - 1] == '(' && forall j :: q <= j < i - 1 ==> s[j] != '('
  }

  /** `CLUSTER BY\s` matches `s[p..i]`; the rest of `\s+` is the `\s*` of the group. */
  predicate ClusterPrefix(s: string, p: nat, i: nat) {
    MatchesAt(s, p, "cluster by") && p + 10 < |s| && IsSpace(s[p + 10]) && i == p + 11
  }

  /** The partition pattern tried at start position `p`: it matches exactly when its
      prefix matches and a `[^) ,]` character can follow the `(` after whitespace, and
      the group is the run from the last such start. */
  function PartitionAt(s: string, p: nat): (g: Option<string>)
    requires p <= |s|
    ensures g.Some? ==> MatchesAt(s, p, "partition by")
    ensures g.Some? ==> |g.value| > 0 && forall j :: 0 <= j < |g.value| ==> TokenChar(g.value[j])
    ensures g.Some? <==> exists i: nat, k: nat :: PartitionPrefix(s, p, i) && TokenStart(s, i, k)
    ensures forall i: nat, k: nat :: PartitionPrefix(s, p, i) && GreedyTokenStart(s, i, k) ==>
              g == Some(s[k..TokenRunEnd(s, k)])
  {
    PartitionScanSpec(s, p);
    PartitionGreedy(s, p, PartitionScan(s, p));
    PartitionScan(s, p)
  }

  /** The scan for the partition pattern at `p`. */
  function PartitionScan(s: string, p: nat): Option<string>
    requires p <= |s|
  {
    if !MatchesAt(s, p, "partition by") then None
    else
      var q := p + 12;
      if q == |s| || !IsSpace(s[q]) then None
      else PartitionAfter(s, q)
  }

  /** The scan past the whitespace character at `q` that follows the keyword. */
  function PartitionAfter(s: string, q: nat): Option<string>
    requires q < |s|
  {
    var r := FindFrom(s, q, '(');
    if r == |s| || r < q + 2 then None
    else SpaceThenToken(s, r + 1)
  }

  /** The scan finds a match exactly when the prefix matches, and then continues with
      `\s*([^) ,]+)` where the prefix ends. */
  lemma PartitionScanSpec(s: string, p: nat)
    requires p <= |s|
    ensures PartitionScan(s, p).Some? ==> MatchesAt(s, p, "partition by")
    ensures PartitionScan(s, p).Some? ==> exists i: nat :: PartitionPrefix(s, p, i)
    ensures forall i: nat :: PartitionPrefix(s, p, i) ==> PartitionScan(s, p) == SpaceThenToken(s, i)
  {
    var q := p + 12;
    if MatchesAt(s, p, "partition by") && q < |s| && IsSpace(s[q]) {
      assert PartitionScan(s, p) == PartitionAfter(s, q);
      PartitionAfterWitness(s, q);
      PartitionAfterAt(s, q);
      if PartitionAfter(s, q).Some? {
        var i: nat :| ParenEnd(s, q, i);
        assert PartitionPrefix(s, p, i);
      }
    }
  }

  /** Past the keyword, the scan finds the `(` that ends a prefix when it succeeds. */
  lemma PartitionAfterWitness(s: string, q: nat)
    requires q < |s|
    ensures PartitionAfter(s, q).Some? ==> exists i: nat :: ParenEnd(s, q, i)
  {
    var r := FindFrom(s, q, '(');
    if q + 2 <= r < |s| {
      assert ParenEnd(s, q, r + 1);
    } else {
      assert PartitionAfter(s, q) == None;
    }
  }

  /** Past the keyword, the scan continues where any prefix ends. */
  lemma PartitionAfterAt(s: string, q: nat)
    requires q < |s|
    ensures forall i: nat :: ParenEnd(s, q, i) ==> PartitionAfter(s, q) == SpaceThenToken(s, i)
  {
    ParenEndUnique(s, q);
    forall i: nat | ParenEnd(s, q, i) ensures PartitionAfter(s, q) == SpaceThenToken(s, i) {
      assert i == FindFrom(s, q, '(') + 1;
    }
  }

  /** The prefix ends right after the first `(`, and only there. */
  lemma ParenEndUnique(s: string, q: nat)
    requires q < |s|
    ensures forall i: nat :: ParenEnd(s, q, i) ==> i == FindFrom(s, q, '(') + 1
  {
    forall i: nat | ParenEnd(s, q, i) ensures i == FindFrom(s, q, '(') + 1 {
      FindFromAt(s, q, i - 1, '(');
    }
  }

  /** A result that continues every prefix match with `\s*([^) ,]+)` is the group of the
      last admissible start after the prefix. */
  lemma PartitionGreedy(s: string, p: nat, g: Option<string>)
    requires g.Some? ==> exists i: nat :: PartitionPrefix(s, p, i)
    requires forall i: nat :: PartitionPrefix(s, p, i) ==> g == SpaceThenToken(s, i)
    ensures g.Some? <==> exists i: nat, k: nat :: PartitionPrefix(s, p, i) && TokenStart(s, i, k)
    ensures forall i: nat, k: nat :: PartitionPrefix(s, p, i) && GreedyTokenStart(s, i, k) ==>
              g == Some(s[k..TokenRunEnd(s, k)])
  {
    forall i: nat, k: nat | PartitionPrefix(s, p, i) && TokenStart(s, i, k) ensures g.Some? {
      SpaceThenTokenGreedy(s, i);
    }
    forall i: nat, k: nat | PartitionPrefix(s, p, i) && GreedyTokenStart(s, i, k)
      ensures g == Some(s[k..TokenRunEnd(s, k)])
    {
      SpaceThenTokenGreedy(s, i);
    }
    if g.Some? {
      var i: nat :| PartitionPrefix(s, p, i);
      SpaceThenTokenGreedy(s, i);
      var k: nat :| TokenStart(s, i, k);
    }
  }

  /** The cluster pattern tried at start position `p`: it matches exactly when its
      prefix matches and a character other than a line break can follow after
      whitespace, and the group is the rest of the line from the last such start. */
  function ClusterAt(s: string, p: nat): (g: Option<string>)
    requires p <= |s|
    ensures g.Some? ==> MatchesAt(s, p, "cluster by")
    ensures g.Some? ==> |g.value| > 0 && forall j :: 0 <= j < |g.value| ==> !LineBreak(g.value[j])
    ensures g.Some? <==> exists i: nat, k: nat :: ClusterPrefix(s, p, i) && LineStart(s, i, k)
    ensures forall i: nat, k: nat :: ClusterPrefix(s, p, i) && GreedyLineStart(s, i, k) ==>
              g == Some(s[k..LineEnd(s, k)])
  {
    if !MatchesAt(s, p, "cluster by") then None
    else
      var q := p + 10;
      if q == |s| || !IsSpace(s[q]) then None
      else
        var g := LineGroup(s, q + 1, SpaceRunEnd(s, q));
        assert SpaceRunEnd(s, q) == SpaceRunEnd(s, q + 1);
        assert g == SpaceThenLine(s, q + 1);
        SpaceThenLineGreedy(s, q + 1);
        g
  }

  /** `re.search`'s scan over start positions `p`..`n`: the first at which `found`
      holds, or `n + 1` when there is none. */
  function Leftmost(found: nat -> bool, n: nat, p: nat): (k: nat)
    requires p <= n
    ensures p <= k <= n + 1
    decreases n - p
  {
    if found(p) then p
    else if p == n then n + 1
    else Leftmost(found, n, p + 1)
  }

  /** The scan returns the leftmost position at which `found` holds. */
  lemma {:induction false} LeftmostSpec(found: nat -> bool, n: nat, p: nat)
    requires p <= n
    ensures forall p' :: p <= p' < Leftmost(found, n, p) ==> !found(p')
    ensures Leftmost(found, n, p) <= n ==> found(Leftmost(found, n, p))
    decreases n - p
  {
    if !found(p) && p < n {
      LeftmostSpec(found, n, p + 1);
    }
  }

  /** A position where `found` holds and nothing before it does is the one the scan
      returns. */
  lemma {:induction false} LeftmostAt(found: nat -> bool, n: nat, p0: nat, p: nat)
    requires p0 <= p <= n && found(p)
    requires forall p' :: p0 <= p' < p ==> !found(p')
    ensures Leftmost(found, n, p0) == p
    decreases p - p0
  {
    if p0 < p {
      LeftmostAt(found, n, p0 + 1, p);
    }
  }

  /** The start positions at which the partition pattern matches. */
  function PartitionFound(s: string): nat -> bool {
    (p: nat) => p <= |s| && PartitionAt(s, p).Some?
  }

  /** The start positions at which the cluster pattern matches. */
  function ClusterFound(s: string): nat -> bool {
    (p: nat) => p <= |s| && ClusterAt(s, p).Some?
  }

  /** The group of the partition match `re.search` finds, if any. */
  function PartitionGroup(s: string): Option<string> {
    var k := Leftmost(PartitionFound(s), |s|, 0);
    if k <= |s| then PartitionAt(s, k) else None
  }

  /** The group of the cluster match `re.search` finds, if any. */
  function ClusterGroup(s: string): Option<string> {
    var k := Leftmost(ClusterFound(s), |s|, 0);
    if k <= |s| then ClusterAt(s, k) else None
  }

  /** `part_cols`: empty when the clause is absent, otherwise the one stripped group,
      which never holds `)`, a space or a comma. */
  function PartitionColumns(opts: string): (cols: seq<string>)
    ensures |cols| <= 1
    ensures |cols| == 1 ==> forall j :: 0 <= j < |cols[0]| ==> TokenChar(cols[0][j])
  {
    match PartitionGroup(opts)
    case None => []
    case Some(g) =>
      StripTokenChars(g);
      [Strip(g)]
  }

  /** Stripping a run of `[^) ,]` characters leaves such a run. */
  lemma StripTokenChars(g: string)
    requires forall j :: 0 <= j < |g| ==> TokenChar(g[j])
    ensures forall j :: 0 <= j < |Strip(g)| ==> TokenChar(Strip(g)[j])
  {
    var col := Strip(g);
    var k := StripStart(g);
    StripSpec(g);
    forall j | 0 <= j < |col| ensures TokenChar(col[j]) {
      assert col[j] == g[k + j];
    }
  }

  /** The partition columns are empty exactly when the pattern matches nowhere. */
  lemma PartitionColumnsEmpty(opts: string)
    ensures |PartitionColumns(opts)| == 0 <==> forall p :: 0 <= p <= |opts| ==> PartitionAt(opts, p).None?
  {
    var found := PartitionFound(opts);
    LeftmostSpec(found, |opts|, 0);
    var k := Leftmost(found, |opts|, 0);
    if k <= |opts| {
      assert found(k);
    } else {
      forall p | 0 <= p <= |opts| ensures PartitionAt(opts, p).None? {
        assert !found(p);
      }
    }
  }

  /** Wherever the pattern first matches, the partition column is that match's group,
      stripped. */
  lemma PartitionColumnsLeftmost(opts: string, p: nat)
    requires p <= |opts| && PartitionAt(opts, p).Some?
    requires forall p': nat :: p' < p ==> PartitionAt(opts, p').None?
    ensures PartitionColumns(opts) == [Strip(PartitionAt(opts, p).value)]
  {
    var found := PartitionFound(opts);
    forall p': nat | p' < p ensures !found(p') {
      assert PartitionAt(opts, p').None?;
    }
    LeftmostAt(found, |opts|, 0, p);
  }

  /** `clust_cols`: empty when the clause is absent, otherwise the rest of the clause's
      line split at every comma, each part stripped. */
  function ClusterColumns(opts: string): (cols: seq<string>)
    ensures forall g :: ClusterGroup(opts) == Some(g) ==>
              |cols| == |Split(g, ',')| &&
              forall i :: 0 <= i < |cols| ==> cols[i] == Strip(Split(g, ',')[i])
  {
    match ClusterGroup(opts)
    case None => []
    case Some(g) =>
      var parts := Split(g, ',');
      seq(|parts|, i requires 0 <= i < |parts| => Strip(parts[i]))
  }

  /** Wherever the pattern first matches, the cluster columns are the comma-separated
      parts of that match's group, each stripped. */
  lemma ClusterColumnsLeftmost(opts: string, p: nat)
    requires p <= |opts| && ClusterAt(opts, p).Some?
    requires forall p': nat :: p' < p ==> ClusterAt(opts, p').None?
    ensures var parts := Split(ClusterAt(opts, p).value, ',');
            ClusterColumns(opts) == seq(|parts|, i requires 0 <= i < |parts| => Strip(parts[i]))
  {
    var found := ClusterFound(opts);
    forall p': nat | p' < p ensures !found(p') {
      assert ClusterAt(opts, p').None?;
    }
    LeftmostAt(found, |opts|, 0, p);
  }

  /** The cluster columns are empty exactly when the pattern matches nowhere (a match
      always yields at least one part). */
  lemma ClusterColumnsEmpty(opts: string)
    ensures |ClusterColumns(opts)| == 0 <==> forall p :: 0 <= p <= |opts| ==> ClusterAt(opts, p).None?
  {
    var found := ClusterFound(opts);
    LeftmostSpec(found, |opts|, 0);
    var k := Leftmost(found, |opts|, 0);
    if k <= |opts| {
      assert found(k);
    } else {
      forall p | 0 <= p <= |opts| ensures ClusterAt(opts, p).None? {
        assert !found(p);
      }
    }
  }

  /** A clause written at the very start of the options text is the one found. */
  lemma {:induction false} ClauseAtStart(s: string)
    requires PartitionAt(s, 0).Some?
    ensures PartitionColumns(s) == [Strip(PartitionAt(s, 0).value)]
  {
  }

  /** `FindFrom` stops at the first `c`. */
  lemma {:induction false} FindFromAt(s: string, i: nat, j: nat, c: char)
    requires i <= j < |s| && s[j] == c
    requires forall k :: i <= k < j ==> s[k] != c
    ensures FindFrom(s, i, c) == j
    decreases j - i
  {
    if i < j {
      FindFromAt(s, i + 1, j, c);
    }
  }

  /** `TokenRunEnd` stops at the first character outside `[^) ,]`. */
  lemma {:induction false} TokenRunEndAt(s: string, i: nat, j: nat)
    requires i <= j <= |s|
    requires forall k :: i <= k < j ==> TokenChar(s[k])
    requires j == |s| || !TokenChar(s[j])
    ensures TokenRunEnd(s, i) == j
    decreases j - i
  {
    if i < j {
      TokenRunEndAt(s, i + 1, j);
    }
  }

  /** `LineEnd` stops at the first line break. */
  lemma {:induction false} LineEndAt(s: string, i: nat, j: nat)
    requires i <= j <= |s|
    requires forall k :: i <= k < j ==> !LineBreak(s[k])
    requires j == |s| || LineBreak(s[j])
    ensures LineEnd(s, i) == j
    decreases j - i
  {
    if i < j {
      LineEndAt(s, i + 1, j);
    }
  }

  lemma LowerPartitionBy()
    ensures Lower("PARTITION BY") == "partition by"
  {
  }

  lemma LowerClusterBy()
    ensures Lower("CLUSTER BY") == "cluster by"
  {
  }

  /** The partition pattern matches `kw f(c...` at its start, capturing `c`, for a
      keyword text `kw` that reads "partition by" followed by whitespace. */
  lemma PartitionAtKeyword(kw: string, f: string, c: string, rest: string)
    requires |kw| == 13 && Lower(kw[..12]) == "partition by" && IsSpace(kw[12])
    requires |f| > 0 && forall k :: 0 <= k < |f| ==> f[k] != '('
    requires |c| > 0 && !IsSpace(c[0]) && forall k :: 0 <= k < |c| ==> TokenChar(c[k])
    requires |rest| == 0 || !TokenChar(rest[0])
    ensures PartitionAt(kw + f + "(" + c + rest, 0) == Some(c)
  {
    var head := kw + f + "(";
    var s := head + c + rest;
    var r := 13 + |f|;
    assert s[..12] == kw[..12] && s[12] == kw[12];
    forall k | 12 <= k < r ensures s[k] != '(' {
      assert s[k] == head[k];
      if k > 12 {
        assert head[k] == f[k - 13];
      }
    }
    assert s[r] == '(';
    assert PartitionPrefix(s, 0, r + 1);
    assert s[r + 1] == c[0];
    assert GreedyTokenStart(s, r + 1, r + 1);
    ClauseColumn(head, c, rest);
  }

  /** The partition pattern matches `PARTITION BY f(c...` at its start, capturing `c`. */
  lemma PartitionAtClause(f: string, c: string, rest: string)
    requires |f| > 0 && forall k :: 0 <= k < |f| ==> f[k] != '('
    requires |c| > 0 && !IsSpace(c[0]) && forall k :: 0 <= k < |c| ==> TokenChar(c[k])
    requires |rest| == 0 || !TokenChar(rest[0])
    ensures PartitionAt("PARTITION BY " + f + "(" + c + rest, 0) == Some(c)
  {
    assert "PARTITION BY "[..12] == "PARTITION BY";
    LowerPartitionBy();
    PartitionAtKeyword("PARTITION BY ", f, c, rest);
  }

  /** The token run after `head` is the column `c`. */
  lemma ClauseColumn(head: string, c: string, rest: string)
    requires forall k :: 0 <= k < |c| ==> TokenChar(c[k])
    requires |rest| == 0 || !TokenChar(rest[0])
    ensures var s := head + c + rest;
            TokenRunEnd(s, |head|) == |head| + |c| && s[|head|..|head| + |c|] == c
  {
    var s := head + c + rest;
    var r := |head|;
    forall k | r <= k < r + |c| ensures TokenChar(s[k]) {
      assert s[k] == c[k - r];
    }
    assert r + |c| < |s| ==> s[r + |c|] == rest[0];
    TokenRunEndAt(s, r, r + |c|);
    assert s[r..r + |c|] == c;
  }

  /** `PARTITION BY f(c...` with a non-empty function text `f` and a column `c` of
      `[^) ,]` characters: the column captured is `c`, the run of token characters right
      after the first `(`. */
  lemma PartitionOfClause(f: string, c: string, rest: string)
    requires |f| > 0 && forall k :: 0 <= k < |f| ==> f[k] != '('
    requires |c| > 0 && !IsSpace(c[0]) && forall k :: 0 <= k < |c| ==> TokenChar(c[k])
    requires |rest| == 0 || !TokenChar(rest[0])
    ensures PartitionColumns("PARTITION BY " + f + "(" + c + rest) == [Strip(c)]
  {
    PartitionAtClause(f, c, rest);
    ClauseAtStart("PARTITION BY " + f + "(" + c + rest);
  }

  /** The cluster pattern matches `CLUSTER BY line` at its start, capturing `line`. */
  lemma ClusterAtClause(line: string, rest: string)
    requires |line| > 0 && !IsSpace(line[0]) && forall k :: 0 <= k < |line| ==> !LineBreak(line[k])
    requires |rest| == 0 || LineBreak(rest[0])
    ensures ClusterAt("CLUSTER BY " + line + rest, 0) == Some(line)
  {
    var s := "CLUSTER BY " + line + rest;
    assert s[0..10] == "CLUSTER BY";
    LowerClusterBy();
    assert s[10] == ' ';
    assert s[11] == line[0];
    assert SpaceRunEnd(s, 11) == 11;
    assert SpaceRunEnd(s, 10) == 11;
    forall k | 11 <= k < 11 + |line| ensures !LineBreak(s[k]) {
      assert s[k] == line[k - 11];
    }
    assert 11 + |line| < |s| ==> s[11 + |line|] == rest[0];
    LineEndAt(s, 11, 11 + |line|);
    assert s[11..11 + |line|] == line;
  }

  /** A cluster clause at the very start of the options text is the one found. */
  lemma ClusterClauseAtStart(s: string)
    requires ClusterAt(s, 0).Some?
    ensures ClusterGroup(s) == ClusterAt(s, 0)
  {
    assert ClusterFound(s)(0);
  }

  /** `CLUSTER BY line` where `line` starts with a non-blank character and runs to the
      end of the text or to a line break: the columns are the comma-separated parts of
      `line`, each stripped. */
  lemma ClusterOfClause(line: string, rest: string)
    requires |line| > 0 && !IsSpace(line[0]) && forall k :: 0 <= k < |line| ==> !LineBreak(line[k])
    requires |rest| == 0 || LineBreak(rest[0])
    ensures ClusterColumns("CLUSTER BY " + line + rest) ==
              seq(|Split(line, ',')|, i requires 0 <= i < |Split(line, ',')| => Strip(Split(line, ',')[i]))
  {
    ClusterAtClause(line, rest);
    ClusterClauseAtStart("CLUSTER BY " + line + rest);
  }

  /** Greedy whitespace runs across a line break: `CLUSTER BY  \nx` captures `x`. */
  lemma ClusterAcrossLineBreak()
    ensures ClusterColumns("CLUSTER BY  \nx") == ["x"]
  {
    var s := "CLUSTER BY  \nx";
    ClusterAtAcrossLineBreak();
    ClusterClauseAtStart(s);
    assert Split("x", ',') == ["x"];
    ClusterColumnsSingle(s, "x");
    StripUnchanged("x");
  }

  /** A captured line without commas is a single column. */
  lemma ClusterColumnsSingle(s: string, g: string)
    requires ClusterGroup(s) == Some(g) && Split(g, ',') == [g]
    ensures ClusterColumns(s) == [Strip(g)]
  {
  }

  lemma ClusterAtAcrossLineBreak()
    ensures ClusterAt("CLUSTER BY  \nx", 0) == Some("x")
  {
    var s := "CLUSTER BY  \nx";
    LowerClusterBy();
    assert s[0..10] == "CLUSTER BY";
    assert s[10] == ' ' && s[11] == ' ' && s[12] == '\n' && s[13] == 'x';
    assert ClusterPrefix(s, 0, 11);
    assert GreedyLineStart(s, 11, 13);
    assert LineEnd(s, 13) == 14;
    assert s[13..14] == "x";
  }

  /** Greedy `\s*` takes `\t ` before `x`: `PARTITION BY f(\t x)` captures `x`. */
  lemma PartitionSkipsWhitespace()
    ensures PartitionColumns("PARTITION BY f(\t x)") == ["x"]
  {
    var s := "PARTITION BY f(\t x)";
    LowerPartitionBy();
    assert s[0..12] == "PARTITION BY";
    assert s[12] == ' ' && s[13] == 'f' && s[14] == '(' && s[15] == '\t' && s[16] == ' ';
    assert s[17] == 'x' && s[18] == ')';
    assert PartitionPrefix(s, 0, 15);
    assert !TokenStart(s, 15, 18);
    assert GreedyTokenStart(s, 15, 17);
    assert TokenRunEnd(s, 18) == 18;
    assert TokenRunEnd(s, 17) == 18;
    assert s[17..18] == "x";
    ClauseAtStart(s);
  }

  /** When no `[^) ,]` follows the whitespace, `\s*` gives a tab back to the group:
      `PARTITION BY f(\t)` captures the tab, which strips to "". */
  lemma PartitionBacktracksIntoTab()
    ensures PartitionColumns("PARTITION BY f(\t)") == [""]
  {
    var s := "PARTITION BY f(\t)";
    LowerPartitionBy();
    assert s[0..12] == "PARTITION BY";
    assert s[12] == ' ' && s[13] == 'f' && s[14] == '(' && s[15] == '\t' && s[16] == ')';
    assert PartitionPrefix(s, 0, 15);
    assert GreedyTokenStart(s, 15, 15);
    assert TokenRunEnd(s, 16) == 16;
    assert TokenRunEnd(s, 15) == 16;
    assert s[15..16] == "\t";
    assert Strip("\t") == "";
    ClauseAtStart(s);
  }
}
