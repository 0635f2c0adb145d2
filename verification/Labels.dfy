/**
 * Domain names as text and as label lists (src/core/context.rs and the normalisers of the
 * three domain indexes). Labels are kept in written order: "www.qq.com" is [www, qq, com].
 */
module Labels {
  // ------------------------------------------------------------------------- plain strings

  function LowerChar(c: char): char {
    if 'A' <= c <= 'Z' then c - 'A' + 'a' else c
  }

  function Lower(s: string): string {
    seq(|s|, i requires 0 <= i < |s| => LowerChar(s[i]))
  }

  predicate StartsWith(s: string, prefix: string) {
    prefix <= s
  }

  predicate ContainsText(s: string, part: string) {
    exists i :: 0 <= i <= |s| && OccursAt(s, part, i)
  }

  predicate OccursAt(s: string, part: string, i: int) {
    0 <= i <= |s| - |part| && s[i..i + |part|] == part
  }

  /** `trim_end_matches` with a set of characters. */
  function TrimEnd(s: string, drop: char -> bool): string {
    if s != [] && drop(s[|s| - 1]) then TrimEnd(s[..|s| - 1], drop) else s
  }

  function TrimStart(s: string, drop: char -> bool): string {
    if s != [] && drop(s[0]) then TrimStart(s[1..], drop) else s
  }

  predicate IsDot(c: char) { c == '.' }

  predicate IsSpace(c: char) { c == ' ' || '\t' <= c <= '\r' }

  function Trim(s: string): string {
    TrimEnd(TrimStart(s, IsSpace), IsSpace)
  }

  /** Lower-casing changes the letters 'A'..'Z' into 'a'..'z', one by one, and nothing else. */
  lemma LowerSpelled(s: string, i: nat)
    requires i < |s|
    ensures |Lower(s)| == |s|
    ensures 'A' <= s[i] <= 'Z' ==> Lower(s)[i] as int == s[i] as int + 32
    ensures !('A' <= s[i] <= 'Z') ==> Lower(s)[i] == s[i]
  {
  }

  /** A text contains another exactly when it is that with something before and something after. */
  lemma ContainsIff(s: string, part: string)
    ensures ContainsText(s, part) <==> exists front: string, back: string :: s == front + part + back
  {
    if ContainsText(s, part) {
      var i :| 0 <= i <= |s| && OccursAt(s, part, i);
      assert s == s[..i] + part + s[i + |part|..];
    }
    if front: string, back: string :| s == front + part + back {
      assert OccursAt(s, part, |front|);
    }
  }

  /** Trimming leaves off the longest end of unwanted characters. */
  lemma {:induction false} TrimEndSpelled(s: string, drop: char -> bool)
    ensures TrimEnd(s, drop) <= s
    ensures forall i :: |TrimEnd(s, drop)| <= i < |s| ==> drop(s[i])
    ensures var t := TrimEnd(s, drop); t != "" ==> !drop(t[|t| - 1])
  {
    if s != [] && drop(s[|s| - 1]) {
      TrimEndSpelled(s[..|s| - 1], drop);
    }
  }

  lemma {:induction false} TrimStartSpelled(s: string, drop: char -> bool)
    ensures var t := TrimStart(s, drop);
            && |t| <= |s| && s[|s| - |t|..] == t && (t != "" ==> !drop(t[0]))
            && forall i :: 0 <= i < |s| - |t| ==> drop(s[i])
  {
    if s != [] && drop(s[0]) {
      TrimStartSpelled(s[1..], drop);
      var t := TrimStart(s, drop);
      assert s[1..][|s| - 1 - |t|..] == s[|s| - |t|..];
      assert forall i :: 0 < i < |s| - |t| ==> s[i] == s[1..][i - 1];
    }
  }

  ghost predicate Blank(s: string) {
    forall i :: 0 <= i < |s| ==> IsSpace(s[i])
  }

  /** A text with no space at either end is what trimming leaves of it between blanks. */
  lemma TrimsTo(left: string, text: string, right: string)
    requires Blank(left) && Blank(right)
    requires text != "" ==> !IsSpace(text[0]) && !IsSpace(text[|text| - 1])
    ensures Trim(left + text + right) == text
  {
    var all := left + text + right;
    if text == "" {
      assert Blank(all);
      TrimStartSpelled(all, IsSpace);
    } else {
      TrimStartSpelled(all, IsSpace);
      var t := TrimStart(all, IsSpace);
      assert !IsSpace(all[|left|]);
      assert t == text + right;
      TrimEndSpelled(t, IsSpace);
      assert !IsSpace(t[|text| - 1]);
      assert t[..|text|] == text;
    }
  }

  /** Trimming stops before the first character that is no space. */
  lemma TrimKeeps(left: string, head: string, tail: string) returns (rest: string)
    requires Blank(left) && head != "" && forall i :: 0 <= i < |head| ==> !IsSpace(head[i])
    ensures Trim(left + head + tail) == head + rest
  {
    var all := left + head + tail;
    TrimStartSpelled(all, IsSpace);
    assert !IsSpace(all[|left|]);
    var t := TrimStart(all, IsSpace);
    assert t == head + tail;
    TrimEndSpelled(t, IsSpace);
    assert !IsSpace(t[|head| - 1]);
    rest := Trim(all)[|head|..];
  }

  // -------------------------------------------------------------------------------- labels

  predicate Dotless(s: string) {
    '.' !in s
  }

  /** One more character: a '.' opens a new piece, anything else extends the last one. */
  function Grow(pieces: seq<string>, c: char): (grown: seq<string>)
    requires |pieces| >= 1
    ensures |grown| >= 1
  {
    if c == '.' then pieces + [[]]
    else pieces[..|pieces| - 1] + [pieces[|pieces| - 1] + [c]]
  }

  /** Split at every '.', empty pieces included: "" is one empty piece. */
  function Split(s: string): (pieces: seq<string>)
    ensures |pieces| >= 1
  {
    if s == [] then [[]] else Grow(Split(s[..|s| - 1]), s[|s| - 1])
  }

  function NonEmpty(labels: seq<string>): seq<string> {
    if labels == [] then []
    else if labels[0] == [] then NonEmpty(labels[1..])
    else [labels[0]] + NonEmpty(labels[1..])
  }

  function Reverse(labels: seq<string>): seq<string> {
    if labels == [] then [] else Reverse(labels[1..]) + [labels[0]]
  }

  predicate IsSuffix(part: seq<string>, whole: seq<string>) {
    |part| <= |whole| && whole[|whole| - |part|..] == part
  }

  lemma GrowInjective(p: seq<string>, c: char, q: seq<string>, d: char)
    requires |p| >= 1 && |q| >= 1 && Grow(p, c) == Grow(q, d)
    ensures p == q && c == d
  {
    var g := Grow(p, c);
    var last := g[|g| - 1];
    assert Grow(q, d)[|g| - 1] == last;
    if last == [] {
      assert c == '.' && d == '.';
      assert p == g[..|g| - 1] && q == g[..|g| - 1];
    } else {
      assert c == last[|last| - 1] && d == last[|last| - 1];
      var front, short := g[..|g| - 1], last[..|last| - 1];
      assert p[..|p| - 1] == front && p[|p| - 1] == short;
      assert q[..|q| - 1] == front && q[|q| - 1] == short;
      assert p == front + [short] && q == front + [short];
    }
  }

  lemma SplitUnrolls(s: string, c: char)
    ensures Split(s + [c]) == Grow(Split(s), c)
  {
    assert (s + [c])[..|s|] == s;
  }

  lemma GrowIsNotBlank(pieces: seq<string>, c: char)
    requires |pieces| >= 1
    ensures Grow(pieces, c) != [[]]
  {
    assert c != '.' ==> Grow(pieces, c)[|pieces| - 1] != [];
  }

  /** Different names have different label lists. */
  lemma {:induction false} SplitInjective(a: string, b: string)
    requires Split(a) == Split(b)
    ensures a == b
  {
    if a == [] || b == [] {
      if a != [] {
        GrowIsNotBlank(Split(a[..|a| - 1]), a[|a| - 1]);
      }
      if b != [] {
        GrowIsNotBlank(Split(b[..|b| - 1]), b[|b| - 1]);
      }
    } else {
      GrowInjective(Split(a[..|a| - 1]), a[|a| - 1], Split(b[..|b| - 1]), b[|b| - 1]);
      SplitInjective(a[..|a| - 1], b[..|b| - 1]);
      assert a == a[..|a| - 1] + [a[|a| - 1]] && b == b[..|b| - 1] + [b[|b| - 1]];
    }
  }

  lemma {:induction false} SplitDotless(s: string)
    requires Dotless(s)
    ensures Split(s) == [s]
  {
    if s == [] {
    } else {
      SplitDotless(s[..|s| - 1]);
      assert s == s[..|s| - 1] + [s[|s| - 1]];
    }
  }

  lemma GrowRight(left: seq<string>, right: seq<string>, c: char)
    requires |right| >= 1
    ensures Grow(left + right, c) == left + Grow(right, c)
  {
  }

  lemma SplitAtEnd(a: string)
    ensures Split(a + ['.']) == Split(a) + [[]] && Split([]) == [[]]
  {
    SplitUnrolls(a, '.');
  }

  lemma {:induction false} SplitAtDot(a: string, b: string)
    ensures Split(a + "." + b) == Split(a) + Split(b)
  {
    hide Split, Grow;
    if b == [] {
      SplitAtEnd(a);
      assert a + "." + b == a + ['.'];
    } else {
      var front, c := b[..|b| - 1], b[|b| - 1];
      SplitAtDot(a, front);
      SplitUnrolls(a + "." + front, c);
      SplitUnrolls(front, c);
      GrowRight(Split(a), Split(front), c);
      assert b == front + [c];
      assert a + "." + b == (a + "." + front) + [c];
    }
  }

  lemma SplitSnoc(a: string, b: string)
    requires Dotless(b)
    ensures Split(a + "." + b) == Split(a) + [b]
  {
    SplitAtDot(a, b);
    SplitDotless(b);
  }

  lemma {:induction false} NonEmptyConcat(a: seq<string>, b: seq<string>)
    ensures NonEmpty(a + b) == NonEmpty(a) + NonEmpty(b)
  {
    if a == [] {
      assert a + b == b;
    } else {
      var rest := a[1..];
      NonEmptyUnrolls(a);
      NonEmptyUnrolls(a + b);
      hide NonEmpty;
      NonEmptyConcat(rest, b);
      assert (a + b)[1..] == rest + b;
      assert a[0] == [] ==> NonEmpty(a + b) == NonEmpty(rest) + NonEmpty(b);
      assert [a[0]] + (NonEmpty(rest) + NonEmpty(b)) == ([a[0]] + NonEmpty(rest)) + NonEmpty(b);
    }
  }

  lemma NonEmptyUnrolls(labels: seq<string>)
    requires labels != []
    ensures NonEmpty(labels) == if labels[0] == [] then NonEmpty(labels[1..]) else [labels[0]] + NonEmpty(labels[1..])
  {
  }

  lemma {:induction false} NonEmptyHasNoEmpty(labels: seq<string>)
    ensures [] !in NonEmpty(labels)
    ensures [] !in labels ==> NonEmpty(labels) == labels
  {
    if labels == [] {
    } else {
      NonEmptyHasNoEmpty(labels[1..]);
      assert labels == [labels[0]] + labels[1..];
    }
  }

  /** The labels written by a trailing dot: one more empty piece, no more labels. */
  lemma TrailingDot(s: string)
    ensures Split(s + ".") == Split(s) + [[]]
    ensures NonEmpty(Split(s + ".")) == NonEmpty(Split(s))
  {
    SplitSnoc(s, []);
    assert s + "." + [] == s + ".";
    NonEmptyConcat(Split(s), [[]]);
    assert NonEmpty([[]]) == NonEmpty([]);
  }

  lemma {:induction false} TrailingDots(s: string)
    ensures NonEmpty(Split(s)) == NonEmpty(Split(TrimEnd(s, IsDot)))
    ensures TrimEnd(s, IsDot) <= s && forall i :: |TrimEnd(s, IsDot)| <= i < |s| ==> s[i] == '.'
  {
    if s != [] && IsDot(s[|s| - 1]) {
      TrailingDots(s[..|s| - 1]);
      TrailingDot(s[..|s| - 1]);
      assert s == s[..|s| - 1] + ".";
    }
  }

  // --------------------------------------------------------------------- suffix of labels

  lemma {:induction false} ReverseConcat(a: seq<string>, b: seq<string>)
    ensures Reverse(a + b) == Reverse(b) + Reverse(a)
  {
    if a == [] {
      assert a + b == b;
    } else {
      ReverseConcat(a[1..], b);
      assert (a + b)[1..] == a[1..] + b;
    }
  }

  lemma {:induction false} ReverseTwice(a: seq<string>)
    ensures Reverse(Reverse(a)) == a && |Reverse(a)| == |a|
  {
    if a == [] {
    } else {
      ReverseTwice(a[1..]);
      ReverseConcat(Reverse(a[1..]), [a[0]]);
      assert [a[0]][1..] == [] && Reverse([a[0]]) == [a[0]];
      assert a == [a[0]] + a[1..];
    }
  }

  /** A suffix in written order is a prefix seen from the top-level label. */
  lemma SuffixIsReversedPrefix(part: seq<string>, whole: seq<string>)
    ensures IsSuffix(part, whole) <==> Reverse(part) <= Reverse(whole)
  {
    ReverseTwice(part);
    ReverseTwice(whole);
    if IsSuffix(part, whole) {
      var cut := |whole| - |part|;
      ReverseConcat(whole[..cut], part);
      assert whole == whole[..cut] + part;
    }
    if Reverse(part) <= Reverse(whole) {
      var rest := Reverse(whole)[|part|..];
      assert Reverse(whole) == Reverse(part) + rest;
      ReverseConcat(Reverse(part), rest);
    }
  }

  /** Some non-empty rule is a suffix of the labels: the relation every index computes. */
  ghost predicate SuffixMatch(rules: set<seq<string>>, labels: seq<string>) {
    exists r :: r in rules && r != [] && IsSuffix(r, labels)
  }

  // -------------------------------------------------------------------- names with gaps

  /** Empty pieces, if any, stand only at the left end: ".com" qualifies, "a..com" does not. */
  ghost predicate Gapless(labels: seq<string>) {
    exists n :: EmptiesThenLabels(labels, n)
  }

  ghost predicate EmptiesThenLabels(labels: seq<string>, n: int) {
    && 0 <= n <= |labels|
    && (forall i :: 0 <= i < n ==> labels[i] == [])
    && (forall i :: n <= i < |labels| ==> labels[i] != [])
  }

  lemma {:induction false} GaplessLabels(labels: seq<string>, n: nat)
    requires EmptiesThenLabels(labels, n)
    ensures NonEmpty(labels) == labels[n..]
  {
    if n == 0 {
      NonEmptyHasNoEmpty(labels);
    } else {
      assert EmptiesThenLabels(labels[1..], n - 1);
      GaplessLabels(labels[1..], n - 1);
      assert labels[1..][n - 1..] == labels[n..];
    }
  }

  /** On gapless names, dropping the empty pieces changes no suffix test. */
  lemma GaplessSuffix(rule: seq<string>, labels: seq<string>)
    requires Gapless(labels) && [] !in rule
    ensures IsSuffix(rule, labels) <==> IsSuffix(rule, NonEmpty(labels))
  {
    var n :| EmptiesThenLabels(labels, n);
    GaplessLabels(labels, n);
    var cut := |labels| - |rule|;
    if cut >= n {
      assert labels[n..][cut - n..] == labels[cut..];
    } else if cut >= 0 {
      assert labels[cut..][0] == [];
    }
  }

  /** Dropping empty pieces can only add suffix matches, whatever the name. */
  lemma SuffixSurvives(rule: seq<string>, labels: seq<string>)
    requires [] !in rule && IsSuffix(rule, labels)
    ensures IsSuffix(rule, NonEmpty(labels))
  {
    var cut := |labels| - |rule|;
    NonEmptyHasNoEmpty(rule);
    NonEmptyConcat(labels[..cut], rule);
    assert labels == labels[..cut] + rule;
    assert NonEmpty(labels) == NonEmpty(labels[..cut]) + rule;
  }

  /**
   * The two ways of reading a name (every piece, or only the non-empty ones) give the same
   * answer for every rule exactly on the gapless names.
   */
  lemma ReadingsAgreeIffGapless(labels: seq<string>)
    ensures Gapless(labels) <==>
            forall rule: seq<string> | [] !in rule :: IsSuffix(rule, labels) <==> IsSuffix(rule, NonEmpty(labels))
  {
    if Gapless(labels) {
      forall rule: seq<string> | [] !in rule
        ensures IsSuffix(rule, labels) <==> IsSuffix(rule, NonEmpty(labels))
      {
        GaplessSuffix(rule, labels);
      }
    }
    if forall rule: seq<string> | [] !in rule :: IsSuffix(rule, labels) <==> IsSuffix(rule, NonEmpty(labels)) {
      NonEmptyHasNoEmpty(labels);
      var kept := NonEmpty(labels);
      assert IsSuffix(kept, labels);
      var n := |labels| - |kept|;
      SameTailMeansEmptyFront(labels, n);
      forall i | n <= i < |labels| ensures labels[i] != [] {
        assert labels[i] == kept[i - n];
      }
      assert EmptiesThenLabels(labels, n);
    }
  }

  lemma SameTailMeansEmptyFront(labels: seq<string>, n: nat)
    requires n <= |labels| && labels[n..] == NonEmpty(labels)
    ensures forall i :: 0 <= i < n ==> labels[i] == []
  {
    NonEmptyHasNoEmpty(labels);
    NonEmptyHasNoEmpty(labels[n..]);
    NonEmptyConcat(labels[..n], labels[n..]);
    assert labels == labels[..n] + labels[n..];
    assert NonEmpty(labels[..n]) == [];
    NothingKept(labels[..n]);
    assert forall i :: 0 <= i < n ==> labels[..n][i] == labels[i];
  }

  lemma {:induction false} NothingKept(labels: seq<string>)
    requires NonEmpty(labels) == []
    ensures forall i :: 0 <= i < |labels| ==> labels[i] == []
  {
    if labels == [] {
    } else {
      NothingKept(labels[1..]);
    }
  }

  /** The name "a..com" has a gap: the two readings disagree on the rule a.com. */
  lemma GapExample()
    ensures var labels: seq<string> := ["a", "", "com"];
            && Split(("a" + "." + "") + "." + "com") == labels
            && !IsSuffix(["a", "com"], labels) && IsSuffix(["a", "com"], NonEmpty(labels))
  {
    hide Split, Grow;
    SplitSnoc("a" + "." + "", "com");
    SplitSnoc("a", "");
    SplitDotless("a");
    var labels: seq<string> := ["a", "", "com"];
    assert labels[1..] == ["", "com"] && labels[2..] == ["com"] && labels[3..] == [];
    assert NonEmpty(labels[3..]) == [];
    assert NonEmpty(labels[2..]) == ["com"];
    assert NonEmpty(labels[1..]) == ["com"];
    assert labels[1..][0] == "";
  }

  // --------------------------------------------------------------------- precomputed ranges

  type Range = (nat, nat)

  ghost predicate InBounds(s: string, ranges: seq<Range>) {
    forall i {:trigger ranges[i]} :: 0 <= i < |ranges| ==>
      ranges[i].0 < ranges[i].1 <= |s| && Dotless(s[ranges[i].0..ranges[i].1])
  }

  ghost function Slices(s: string, ranges: seq<Range>): seq<string>
    requires InBounds(s, ranges)
  {
    seq(|ranges|, i requires 0 <= i < |ranges| => s[ranges[i].0..ranges[i].1])
  }

  /** `ranges` cuts s into exactly its non-empty labels, left to right. */
  ghost predicate LabelRanges(s: string, ranges: seq<Range>) {
    InBounds(s, ranges) && Slices(s, ranges) == NonEmpty(Split(s))
  }

  method QnamePartsRanges(lower: string) returns (ranges: seq<Range>)
    ensures LabelRanges(lower, ranges)
  {
    ranges := [];
    var start := 0;
    for i := 0 to |lower|
      invariant start <= i && Dotless(lower[start..i])
      invariant InBounds(lower, ranges)
      invariant start == 0 ==> Slices(lower, ranges) == []
      invariant start > 0 ==> lower[start - 1] == '.' && Slices(lower, ranges) == NonEmpty(Split(lower[..start - 1]))
    {
      if lower[i] == '.' {
        PieceEnds(lower, start, i);
        if i > start {
          SliceAdded(lower, ranges, start, i);
          ranges := ranges + [(start, i)];
        }
        start := i + 1;
      } else {
        assert lower[start..i + 1] == lower[start..i] + [lower[i]];
      }
    }
    PieceEnds(lower, start, |lower|);
    assert lower[..|lower|] == lower;
    if start < |lower| {
      SliceAdded(lower, ranges, start, |lower|);
      ranges := ranges + [(start, |lower|)];
    }
  }

  lemma SliceAdded(s: string, ranges: seq<Range>, start: nat, end: nat)
    requires InBounds(s, ranges) && start < end <= |s| && Dotless(s[start..end])
    ensures InBounds(s, ranges + [(start, end)])
    ensures Slices(s, ranges + [(start, end)]) == Slices(s, ranges) + [s[start..end]]
  {
  }

  lemma NonEmptyOne(piece: string)
    ensures NonEmpty([piece]) == if piece == [] then [] else [piece]
  {
    assert [piece][1..] == [];
  }

  /** Closing the piece [start..i) adds it to the labels seen so far, if it is not empty. */
  lemma PieceEnds(s: string, start: nat, i: nat)
    requires start <= i <= |s| && Dotless(s[start..i]) && (start > 0 ==> s[start - 1] == '.')
    ensures NonEmpty(Split(s[..i])) == (if start == 0 then [] else NonEmpty(Split(s[..start - 1])))
                                       + (if i > start then [s[start..i]] else [])
  {
    hide Split, Grow, NonEmpty;
    var piece := s[start..i];
    NonEmptyOne(piece);
    if start == 0 {
      assert s[..i] == piece;
      SplitDotless(piece);
    } else {
      SplitSnoc(s[..start - 1], piece);
      assert s[..i] == s[..start - 1] + "." + piece;
      NonEmptyConcat(Split(s[..start - 1]), [piece]);
    }
  }

  /** Ranges of a name stay right for the name without (some) trailing dots. */
  lemma RangesIgnoreTrailingDots(lower: string, clean: string, ranges: seq<Range>)
    requires LabelRanges(lower, ranges)
    requires clean <= lower && forall i :: |clean| <= i < |lower| ==> lower[i] == '.'
    ensures LabelRanges(clean, ranges)
  {
    forall i | 0 <= i < |ranges|
      ensures ranges[i].1 <= |clean| && clean[ranges[i].0..ranges[i].1] == lower[ranges[i].0..ranges[i].1]
    {
      var (a, b) := ranges[i];
      assert lower[a..b][b - a - 1] == lower[b - 1];
    }
    SameLabels(lower, clean);
    assert Slices(clean, ranges) == Slices(lower, ranges);
  }

  lemma {:induction false} SameLabels(lower: string, clean: string)
    requires clean <= lower && forall i :: |clean| <= i < |lower| ==> lower[i] == '.'
    ensures NonEmpty(Split(lower)) == NonEmpty(Split(clean))
  {
    if |clean| < |lower| {
      SameLabels(lower[..|lower| - 1], clean);
      TrailingDot(lower[..|lower| - 1]);
      assert lower == lower[..|lower| - 1] + ".";
    } else {
      assert lower == clean;
    }
  }
}
