/**
 * The three domain indexes: GeoSite's DomainSet (src/plugins/geosite.rs), the Matcher plugin
 * (src/plugins/matcher.rs) and AdBlock's RuleSet (src/plugins/adblock.rs). Two are label
 * tries with a memo in front, one is a strip loop over a string set; all compute the same
 * relation between a rule's labels and a name's labels.
 */
module DomainMatchers {
  import opened Labels
  import opened SuffixTrie

  // --------------------------------------------------------------------- what a rule means

  /** Exact names, suffix rules as label lists, and substrings. */
  datatype Rules = Rules(exact: set<string>, suffix: set<seq<string>>, keywords: set<string>)

  ghost predicate HasKeyword(rules: Rules, name: string) {
    exists k :: k in rules.keywords && ContainsText(name, k)
  }

  /** The plain test, with no trie and no memo: reading `labels` off the name. */
  ghost predicate Test(rules: Rules, name: string, labels: seq<string>) {
    name in rules.exact || SuffixMatch(rules.suffix, labels) || HasKeyword(rules, name)
  }

  /** The two readings of a name bracket each other; on gapless names they coincide. */
  lemma ReadingsAgree(rules: Rules, name: string)
    requires forall r :: r in rules.suffix ==> [] !in r
    ensures Test(rules, name, Split(name)) ==> Test(rules, name, NonEmpty(Split(name)))
    ensures Gapless(Split(name)) ==>
              (Test(rules, name, Split(name)) <==> Test(rules, name, NonEmpty(Split(name))))
  {
    forall r | r in rules.suffix && IsSuffix(r, Split(name)) ensures IsSuffix(r, NonEmpty(Split(name))) {
      SuffixSurvives(r, Split(name));
    }
    if Gapless(Split(name)) {
      forall r | r in rules.suffix ensures IsSuffix(r, Split(name)) <==> IsSuffix(r, NonEmpty(Split(name))) {
        GaplessSuffix(r, Split(name));
      }
    }
  }

  type Memo = map<string, bool>

  /** Every remembered answer for a gapless name is the plain test's. */
  ghost predicate MemoSound(rules: Rules, memo: Memo) {
    forall name :: name in memo && Gapless(Split(name)) ==> (memo[name] <==> Test(rules, name, Split(name)))
  }

  lemma Recall(rules: Rules, memo: Memo, name: string)
    requires MemoSound(rules, memo) && name in memo
    ensures Gapless(Split(name)) ==> (memo[name] <==> Test(rules, name, Split(name)))
    ensures memo == memo[name := memo[name]]
  {
  }

  lemma Remember(rules: Rules, memo: Memo, name: string, answer: bool)
    requires MemoSound(rules, memo)
    requires Gapless(Split(name)) ==> (answer <==> Test(rules, name, Split(name)))
    ensures MemoSound(rules, memo[name := answer])
  {
  }

  method AnyKeyword(keywords: set<string>, name: string) returns (found: bool)
    ensures forall rules: Rules | rules.keywords == keywords :: found <==> HasKeyword(rules, name)
  {
    var rest := keywords;
    while rest != {}
      invariant rest <= keywords
      invariant forall k :: k in keywords - rest ==> !ContainsText(name, k)
      decreases rest
    {
      var k :| k in rest;
      if ContainsText(name, k) {
        return true;
      }
      rest := rest - {k};
    }
    found := false;
  }

  // ---------------------------------------------------------------------------- the GeoSite

  class DomainSet {
    const trie: Trie
    var plain: seq<string>
    var memo: Memo

    ghost function Meaning(): Rules
      reads this, trie
    {
      Rules({}, trie.rules, (set p | p in plain))
    }

    ghost function Footprint(): set<object>
      reads this, trie
    {
      {this} + trie.Footprint()
    }

    ghost predicate Valid()
      reads this, trie, trie.nodes.Values
    {
      trie.Valid() && this !in trie.Footprint()
    }

    constructor ()
      ensures Valid() && fresh(Footprint()) && Meaning() == Rules({}, {}, {}) && memo == map[]
    {
      trie := new Trie();
      plain, memo := [], map[];
    }

    /**
     * The memo is left alone here too: it stays sound exactly when no gapless name it remembers
     * as unmatched contains the new text.
     */
    method AddPlain(text: string)
      requires Valid()
      modifies this`plain
      ensures Valid() && plain == old(plain) + [Lower(text)]
      ensures Meaning() == old(Meaning()).(keywords := old(Meaning()).keywords + {Lower(text)})
      ensures old(MemoSound(Meaning(), memo)) ==>
                (MemoSound(Meaning(), memo) <==>
                 forall name :: name in memo && Gapless(Split(name)) && ContainsText(name, Lower(text)) ==> memo[name])
    {
      ghost var before := Meaning();
      plain := plain + [Lower(text)];
      assert Meaning().keywords == before.keywords + {Lower(text)};
      SoundUnlessNewlyContained(before, Lower(text), memo);
    }

    lemma SoundUnlessNewlyContained(before: Rules, text: string, m: Memo)
      ensures MemoSound(before, m) ==>
                (MemoSound(before.(keywords := before.keywords + {text}), m) <==>
                 forall name :: name in m && Gapless(Split(name)) && ContainsText(name, text) ==> m[name])
    {
      var after := before.(keywords := before.keywords + {text});
      hide Split, Grow, Gapless, SuffixMatch, ContainsText;
      forall name ensures HasKeyword(after, name) <==> HasKeyword(before, name) || ContainsText(name, text) {
        assert ContainsText(name, text) ==> text in after.keywords;
      }
    }

    /**
     * A rule is its non-empty labels. The memo is left alone, so it stays sound exactly when
     * no gapless name it remembers as unmatched is covered by the new rule.
     */
    method AddDomain(domain: string)
      requires Valid()
      modifies Footprint()
      ensures Valid() && fresh(Footprint() - old(Footprint())) && plain == old(plain) && memo == old(memo)
      ensures trie.rules == old(trie.rules) +
                if domain == "" then {} else {NonEmpty(Split(TrimEnd(Lower(domain), IsDot)))}
      ensures old(MemoSound(Meaning(), memo)) ==>
                (MemoSound(Meaning(), memo) <==>
                 forall name :: name in memo && Gapless(Split(name)) && SuffixMatch(trie.rules, Split(name)) ==> memo[name])
    {
      if domain == "" {
        SoundUnlessNewlyMatched(Meaning(), trie.rules, memo);
        return;
      }
      var clean := TrimEnd(Lower(domain), IsDot);
      var labels := NonEmpty(Split(clean));
      NonEmptyHasNoEmpty(Split(clean));
      hide NonEmpty, Split, Grow, TrimEnd, Lower, MemoSound, Gapless, SuffixMatch;
      trie.AddRule(labels);
      SoundUnlessNewlyMatched(old(Meaning()), trie.rules, memo);
    }

    lemma SoundUnlessNewlyMatched(before: Rules, suffix': set<seq<string>>, m: Memo)
      requires before.suffix <= suffix'
      ensures MemoSound(before, m) ==>
                (MemoSound(before.(suffix := suffix'), m) <==>
                 forall name :: name in m && Gapless(Split(name)) && SuffixMatch(suffix', Split(name)) ==> m[name])
    {
      var after := before.(suffix := suffix');
      forall name ensures HasKeyword(after, name) <==> HasKeyword(before, name) {
      }
      forall name | SuffixMatch(before.suffix, Split(name)) ensures SuffixMatch(suffix', Split(name)) {
      }
    }

    /** Any set of answers may be dropped at any time. */
    method Evict(names: set<string>)
      requires Valid()
      modifies this`memo
      ensures Valid() && old(MemoSound(Meaning(), memo)) ==> MemoSound(Meaning(), memo)
    {
      memo := map name | name in memo && name !in names :: memo[name];
    }

    /** The `rsplit` path. */
    method Matches(domain: string) returns (matched: bool)
      requires Valid() && MemoSound(Meaning(), memo)
      modifies this`memo
      ensures Valid() && MemoSound(Meaning(), memo)
      ensures var name := Lower(TrimEnd(domain, IsDot));
              && memo == old(memo)[name := matched]
              && (Gapless(Split(name)) ==> (matched <==> Test(Meaning(), name, Split(name))))
              && (name !in old(memo) ==> (matched <==> Test(Meaning(), name, Split(name))))
    {
      var name := Lower(TrimEnd(domain, IsDot));
      hide Split, Grow, NonEmpty, Reverse, SuffixMatch, Gapless, MemoSound, ContainsText, LabelRanges, HasKeyword;
      if name in memo {
        Recall(Meaning(), memo, name);
        matched := memo[name];
        return;
      }
      matched := trie.MatchPieces(name);
      if !matched {
        matched := AnyKeyword((set p | p in plain), name);
      }
      Remember(Meaning(), memo, name, matched);
      memo := memo[name := matched];
    }

    /** The path over the label ranges precomputed for the name with its trailing dots. */
    method MatchesLowerWithParts(lower: string, ranges: seq<Range>) returns (matched: bool)
      requires Valid() && MemoSound(Meaning(), memo) && LabelRanges(lower, ranges)
      modifies this`memo
      ensures Valid() && MemoSound(Meaning(), memo)
      ensures var name := TrimEnd(lower, IsDot);
              && memo == old(memo)[name := matched]
              && (Gapless(Split(name)) ==> (matched <==> Test(Meaning(), name, Split(name))))
              && (name !in old(memo) ==> (matched <==> Test(Meaning(), name, NonEmpty(Split(name)))))
    {
      var name := TrimEnd(lower, IsDot);
      hide Split, Grow, NonEmpty, Reverse, SuffixMatch, Gapless, MemoSound, ContainsText, LabelRanges, HasKeyword;
      if name in memo {
        Recall(Meaning(), memo, name);
        matched := memo[name];
        return;
      }
      TrailingDots(lower);
      matched := trie.MatchRanges(lower, name, ranges);
      ReadingsAgree(Meaning(), name);
      if !matched {
        matched := AnyKeyword((set p | p in plain), name);
      }
      Remember(Meaning(), memo, name, matched);
      memo := memo[name := matched];
    }
  }

  // ---------------------------------------------------------------------------- the Matcher

  datatype RuleKind = Exact | Suffix | Keyword

  datatype ParsedRule = NoRule | ParsedRule(kind: RuleKind, value: string)

  function ParseRule(text: string): ParsedRule {
    var line := Lower(text);
    if StartsWith(line, "regexp:") then NoRule
    else if StartsWith(line, "keyword:") then Settle(Keyword, line[8..])
    else if StartsWith(line, "domain:") then Settle(Exact, line[7..])
    else if StartsWith(line, "full:") then Settle(Exact, line[5..])
    else if StartsWith(line, "suffix:") then Settle(Suffix, line[7..])
    else if ':' in line then NoRule
    else Settle(Exact, line)
  }

  function Settle(kind: RuleKind, text: string): ParsedRule {
    var value := TrimEnd(Trim(text), IsDot);
    if value == "" then NoRule
    else
      var dotted := kind != Keyword && value[0] == '.';
      var kind', value' := if dotted then Suffix else kind, if dotted then TrimStart(value, IsDot) else value;
      if kind' == Suffix && TrimStart(value', IsDot) == "" then NoRule
      else ParsedRule(kind', if kind' == Suffix then TrimStart(value', IsDot) else value')
  }

  predicate Skipped(line: string) {
    line == "" || line[0] == '#' || StartsWith(line, "//")
  }

  /** What one line of a rule file adds. */
  ghost function AddLine(rules: Rules, text: string): Rules {
    var line := Trim(text);
    if Skipped(line) then rules
    else
      var rule := ParseRule(line);
      if rule.NoRule? then rules else AddRule(rules, rule.kind, rule.value)
  }

  /** A suffix rule covers the name itself as well. */
  ghost function AddRule(rules: Rules, kind: RuleKind, value: string): Rules {
    match kind
    case Exact => rules.(exact := rules.exact + {value})
    case Keyword => rules.(keywords := rules.keywords + {value})
    case Suffix =>
      var clean := TrimEnd(TrimStart(value, IsDot), IsDot);
      if clean == "" then rules
      else Rules(rules.exact + {clean}, rules.suffix + {NonEmpty(Split(clean))}, rules.keywords)
  }

  /** A host as rule files write it: no space, no ':', no '.' at either end. */
  ghost predicate PlainHost(h: string) {
    && h != "" && h[0] != '.' && h[|h| - 1] != '.' && h[0] != '#' && h[0] != '/'
    && forall i :: 0 <= i < |h| ==> !IsSpace(h[i]) && h[i] != ':'
  }

  /** The text is the line between blanks. */
  ghost predicate Padded(text: string, line: string) {
    exists left: string, right: string :: Blank(left) && Blank(right) && text == left + line + right
  }

  /**
   * What a line of a rule file must do, form by form: `suffix:` and a leading '.' add the host's
   * labels and the host itself, the bare, `domain:` and `full:` forms the host only, `keyword:`
   * the keyword; comments, regular expressions and unknown prefixes add nothing.
   */
  ghost predicate LineAdds(before: Rules, text: string, after: Rules) {
    && (forall h: string :: PlainHost(h) && (Padded(text, "suffix:" + h) || Padded(text, "." + h)) ==>
          after == Rules(before.exact + {Lower(h)}, before.suffix + {NonEmpty(Split(Lower(h)))}, before.keywords))
    && (forall h: string :: PlainHost(h) && (Padded(text, h) || Padded(text, "domain:" + h) || Padded(text, "full:" + h)) ==>
          after == Rules(before.exact + {Lower(h)}, before.suffix, before.keywords))
    && (forall h: string :: PlainHost(h) && Padded(text, "keyword:" + h) ==>
          after == Rules(before.exact, before.suffix, before.keywords + {Lower(h)}))
    && (Blank(text) || (exists rest: string :: Padded(text, "#" + rest) || Padded(text, "//" + rest)) ==> after == before)
    && (forall rest: string :: text == "regexp:" + rest ==> after == before)
    && (forall prefix: string, rest: string :: UnknownPrefix(prefix) && text == prefix + ":" + rest ==> after == before)
  }

  ghost predicate UnknownPrefix(prefix: string) {
    && (forall i :: 0 <= i < |prefix| ==> 'a' <= prefix[i] <= 'z')
    && prefix !in {"keyword", "domain", "full", "suffix"}
  }

  /** Lower-casing a host leaves it one, of which nothing is trimmed. */
  ghost predicate LowHost(low: string) {
    && low != "" && low[0] != '.' && low[|low| - 1] != '.' && ':' !in low
    && !IsSpace(low[0]) && !IsSpace(low[|low| - 1])
  }

  lemma HostLowered(h: string)
    requires PlainHost(h)
    ensures LowHost(Lower(h))
  {
    var low := Lower(h);
    forall i | 0 <= i < |low| ensures low[i] != ':' && !IsSpace(low[i]) && (low[i] == '.' <==> h[i] == '.') {
      assert low[i] == LowerChar(h[i]) && !IsSpace(h[i]) && h[i] != ':';
    }
  }

  lemma NothingTrimmed(low: string)
    requires LowHost(low)
    ensures Trim(low) == low && TrimEnd(low, IsDot) == low && TrimStart(low, IsDot) == low
  {
  }

  lemma HostSettled(kind: RuleKind, low: string)
    requires LowHost(low)
    ensures Settle(kind, low) == ParsedRule(kind, low)
  {
    NothingTrimmed(low);
    hide Trim, TrimEnd, TrimStart;
  }

  lemma LowerPrefixed(prefix: string, h: string)
    requires Lower(prefix) == prefix
    ensures Lower(prefix + h) == prefix + Lower(h)
  {
    forall i | 0 <= i < |prefix| ensures LowerChar(prefix[i]) == prefix[i] {
      assert Lower(prefix)[i] == prefix[i];
    }
  }

  /** The rule of a line that is a prefix and a host. */
  lemma HostParsed(h: string)
    requires PlainHost(h)
    ensures ParseRule("suffix:" + h) == ParsedRule(Suffix, Lower(h))
    ensures ParseRule("domain:" + h) == ParsedRule(Exact, Lower(h))
    ensures ParseRule("full:" + h) == ParsedRule(Exact, Lower(h))
    ensures ParseRule("keyword:" + h) == ParsedRule(Keyword, Lower(h))
  {
    hide Lower, Settle;
    var low := Lower(h);
    HostLowered(h);
    HostSettled(Suffix, low);
    HostSettled(Exact, low);
    HostSettled(Keyword, low);
    PrefixParsed("suffix:", h);
    PrefixParsed("domain:", h);
    PrefixParsed("full:", h);
    PrefixParsed("keyword:", h);
  }

  /** Which prefix is recognised, and what it leaves. */
  lemma PrefixParsed(prefix: string, h: string)
    requires prefix in {"suffix:", "domain:", "full:", "keyword:"}
    ensures ParseRule(prefix + h) ==
              Settle(if prefix == "suffix:" then Suffix else if prefix == "keyword:" then Keyword else Exact, Lower(h))
  {
    LowerPrefixed(prefix, h);
    var low := Lower(h);
    hide Lower, Settle;
    OnlyPrefix(prefix, low, "regexp:");
    OnlyPrefix(prefix, low, "keyword:");
    OnlyPrefix(prefix, low, "domain:");
    OnlyPrefix(prefix, low, "full:");
    OnlyPrefix(prefix, low, "suffix:");
    hide StartsWith;
    assert (prefix + low)[|prefix|..] == low;
  }

  /** The first letters tell the prefixes apart. */
  lemma OnlyPrefix(prefix: string, low: string, known: string)
    requires prefix != "" && known != "" && (prefix != known ==> prefix[0] != known[0])
    ensures StartsWith(prefix + low, known) <==> prefix == known
  {
    assert (prefix + low)[0] == prefix[0];
  }

  lemma BareHostParsed(h: string)
    requires PlainHost(h)
    ensures ParseRule(h) == ParsedRule(Exact, Lower(h))
    ensures ParseRule("." + h) == ParsedRule(Suffix, Lower(h))
  {
    var low := Lower(h);
    HostLowered(h);
    LowerPrefixed(".", h);
    hide Lower, Settle;
    NoPrefix(low);
    NoPrefix("." + low);
    HostSettled(Exact, low);
    DottedSettled(low);
  }

  lemma DottedSettled(low: string)
    requires LowHost(low)
    ensures Settle(Exact, "." + low) == ParsedRule(Suffix, low)
  {
    var dotted := "." + low;
    NothingTrimmed(low);
    assert dotted[1..] == low && dotted[|dotted| - 1] == low[|low| - 1];
    assert TrimStart(dotted, IsDot) == TrimStart(low, IsDot);
    assert TrimStart(dotted, IsSpace) == dotted && TrimEnd(dotted, IsSpace) == dotted && TrimEnd(dotted, IsDot) == dotted;
    hide TrimStart, TrimEnd;
  }

  lemma NoPrefix(line: string)
    requires ':' !in line
    ensures !StartsWith(line, "regexp:") && !StartsWith(line, "keyword:") && !StartsWith(line, "domain:")
    ensures !StartsWith(line, "full:") && !StartsWith(line, "suffix:")
  {
    assert "regexp:"[6] == ':' && "keyword:"[7] == ':' && "domain:"[6] == ':' && "full:"[4] == ':' && "suffix:"[6] == ':';
  }

  /** A padded line of a prefix and a host is read as just that. */
  lemma PaddedHost(text: string, prefix: string, h: string)
    requires PlainHost(h) && Padded(text, prefix + h)
    requires prefix == "" || !IsSpace(prefix[0])
    ensures Trim(text) == prefix + h
  {
    var left: string, right: string :| Blank(left) && Blank(right) && text == left + (prefix + h) + right;
    var line := prefix + h;
    assert line[|line| - 1] == h[|h| - 1] && (if prefix == "" then line[0] == h[0] else line[0] == prefix[0]);
    TrimsTo(left, line, right);
  }

  lemma SuffixLine(rules: Rules, text: string, h: string)
    requires PlainHost(h) && (Padded(text, "suffix:" + h) || Padded(text, "." + h))
    ensures AddLine(rules, text) ==
              Rules(rules.exact + {Lower(h)}, rules.suffix + {NonEmpty(Split(Lower(h)))}, rules.keywords)
  {
    HostLowered(h);
    NothingTrimmed(Lower(h));
    hide Trim, TrimEnd, TrimStart, Lower, NonEmpty, Split, ParseRule, Padded;
    if Padded(text, "suffix:" + h) {
      PaddedHost(text, "suffix:", h);
      HostParsed(h);
    } else {
      PaddedHost(text, ".", h);
      BareHostParsed(h);
    }
  }

  lemma ExactLine(rules: Rules, text: string, h: string)
    requires PlainHost(h) && (Padded(text, h) || Padded(text, "domain:" + h) || Padded(text, "full:" + h))
    ensures AddLine(rules, text) == rules.(exact := rules.exact + {Lower(h)})
  {
    hide Trim, Lower, ParseRule, Padded;
    HostParsed(h);
    assert ("domain:" + h)[0] == 'd' && ("full:" + h)[0] == 'f';
    if Padded(text, "domain:" + h) {
      PaddedHost(text, "domain:", h);
    } else if Padded(text, "full:" + h) {
      PaddedHost(text, "full:", h);
    } else {
      assert "" + h == h;
      PaddedHost(text, "", h);
      BareHostParsed(h);
    }
  }

  lemma KeywordLine(rules: Rules, text: string, h: string)
    requires PlainHost(h) && Padded(text, "keyword:" + h)
    ensures AddLine(rules, text) == rules.(keywords := rules.keywords + {Lower(h)})
  {
    hide Trim, Lower, ParseRule, Padded;
    HostParsed(h);
    assert ("keyword:" + h)[0] == 'k';
    PaddedHost(text, "keyword:", h);
  }

  lemma CommentLine(rules: Rules, text: string, rest: string)
    requires Padded(text, "#" + rest) || Padded(text, "//" + rest)
    ensures AddLine(rules, text) == rules
  {
    if Padded(text, "#" + rest) {
      var left: string, right: string :| Blank(left) && Blank(right) && text == left + ("#" + rest) + right;
      var t := TrimKeeps(left, "#", rest + right);
      assert text == left + "#" + (rest + right);
    } else {
      var left: string, right: string :| Blank(left) && Blank(right) && text == left + ("//" + rest) + right;
      var t := TrimKeeps(left, "//", rest + right);
      assert text == left + "//" + (rest + right);
    }
  }

  lemma BlankLine(rules: Rules, text: string)
    requires Blank(text)
    ensures AddLine(rules, text) == rules
  {
    TrimsTo(text, "", "");
    assert text + "" + "" == text;
  }

  lemma PrefixedLine(rules: Rules, text: string, prefix: string, rest: string)
    requires UnknownPrefix(prefix) && text == prefix + ":" + rest
    ensures AddLine(rules, text) == rules
  {
    var head := prefix + ":";
    var t := TrimKeeps("", head, rest);
    assert text == "" + head + rest;
    var line := head + t;
    assert Trim(text) == line;
    LowerPrefixed(head, t);
    assert Lower(line) == head + Lower(t);
    UnknownSkipped(prefix, Lower(t));
  }

  /** No known prefix fits: its ':' would have to be this one's. */
  lemma UnknownSkipped(prefix: string, rest: string)
    requires UnknownPrefix(prefix)
    ensures var line := prefix + ":" + rest;
            && ':' in line && !StartsWith(line, "keyword:") && !StartsWith(line, "domain:")
            && !StartsWith(line, "full:") && !StartsWith(line, "suffix:")
  {
    var line := prefix + ":" + rest;
    assert line[|prefix|] == ':';
    ColonAt(prefix, rest, "keyword");
    ColonAt(prefix, rest, "domain");
    ColonAt(prefix, rest, "full");
    ColonAt(prefix, rest, "suffix");
    assert "keyword" + ":" == "keyword:" && "domain" + ":" == "domain:" && "full" + ":" == "full:";
    assert "suffix" + ":" == "suffix:";
  }

  lemma ColonAt(prefix: string, rest: string, known: string)
    requires ':' !in prefix && ':' !in known
    ensures StartsWith(prefix + ":" + rest, known + ":") ==> prefix == known
  {
    if !StartsWith(prefix + ":" + rest, known + ":") {
      return;
    }
    var line := prefix + ":" + rest;
    assert line[..|known| + 1] == known + ":";
    assert line[|known|] == ':' && line[|prefix|] == ':';
    assert forall k :: 0 <= k < |known| ==> line[k] == known[k];
    assert forall k :: 0 <= k < |prefix| ==> line[k] == prefix[k];
    assert |prefix| == |known|;
  }

  /** Every line adds what its form says. */
  lemma LineMeans(rules: Rules, text: string)
    ensures LineAdds(rules, text, AddLine(rules, text))
  {
    hide AddLine, Padded, UnknownPrefix, Blank;
    forall h: string | PlainHost(h) && (Padded(text, "suffix:" + h) || Padded(text, "." + h))
      ensures AddLine(rules, text) ==
                Rules(rules.exact + {Lower(h)}, rules.suffix + {NonEmpty(Split(Lower(h)))}, rules.keywords)
    {
      SuffixLine(rules, text, h);
    }
    forall h: string | PlainHost(h) && (Padded(text, h) || Padded(text, "domain:" + h) || Padded(text, "full:" + h))
      ensures AddLine(rules, text) == Rules(rules.exact + {Lower(h)}, rules.suffix, rules.keywords)
    {
      ExactLine(rules, text, h);
    }
    forall h: string | PlainHost(h) && Padded(text, "keyword:" + h)
      ensures AddLine(rules, text) == Rules(rules.exact, rules.suffix, rules.keywords + {Lower(h)})
    {
      KeywordLine(rules, text, h);
    }
    if Blank(text) {
      BlankLine(rules, text);
    }
    if rest: string :| Padded(text, "#" + rest) || Padded(text, "//" + rest) {
      CommentLine(rules, text, rest);
    }
    forall prefix: string, rest: string | UnknownPrefix(prefix) && text == prefix + ":" + rest
      ensures AddLine(rules, text) == rules
    {
      PrefixedLine(rules, text, prefix, rest);
    }
    forall rest: string | text == "regexp:" + rest ensures AddLine(rules, text) == rules {
      RegexpUnknown();
      assert "regexp" + ":" == "regexp:";
      PrefixedLine(rules, text, "regexp", rest);
    }
  }

  lemma RegexpUnknown()
    ensures UnknownPrefix("regexp")
  {
  }

  ghost function AddLines(rules: Rules, lines: seq<string>): Rules {
    if lines == [] then rules else AddLine(AddLines(rules, lines[..|lines| - 1]), lines[|lines| - 1])
  }

  /** The last '.' is dropped, if there is one. */
  function CleanDomain(lower: string): string {
    if lower != "" && lower[|lower| - 1] == '.' then lower[..|lower| - 1] else lower
  }

  /** Exactly one final '.' is dropped. */
  lemma CleanDomainIs(lower: string)
    ensures lower == CleanDomain(lower) + "." || (lower == CleanDomain(lower) && forall front: string :: lower != front + ".")
  {
    var clean := CleanDomain(lower);
    if front: string :| lower == front + "." {
      assert lower[|lower| - 1] == '.' && clean + "." == lower;
    } else if clean != lower {
      assert lower == clean + ".";
    }
  }

  class Matcher {
    var domains: set<string>
    const trie: Trie
    var keywords: set<string>
    var memo: Memo

    ghost function Meaning(): Rules
      reads this, trie
    {
      Rules(domains, trie.rules, keywords)
    }

    ghost function Footprint(): set<object>
      reads this, trie
    {
      {this} + trie.Footprint()
    }

    ghost predicate Indexed()
      reads this, trie, trie.nodes.Values
    {
      trie.Valid() && this !in trie.Footprint()
    }

    ghost predicate Valid()
      reads this, trie, trie.nodes.Values
    {
      Indexed() && MemoSound(Meaning(), memo)
    }

    /** All rules are loaded before the first query, so the memo starts out empty. */
    constructor (lines: seq<string>)
      ensures Valid() && fresh(Footprint()) && Meaning() == AddLines(Rules({}, {}, {}), lines)
    {
      domains, keywords, memo := {}, {}, map[];
      trie := new Trie();
      new;
      for i := 0 to |lines|
        invariant Indexed() && fresh(Footprint()) && memo == map[]
        invariant Meaning() == AddLines(Rules({}, {}, {}), lines[..i])
      {
        assert lines[..i + 1][..i] == lines[..i];
        Load(lines[i]);
      }
      assert lines[..|lines|] == lines;
    }

    method Load(text: string)
      requires Indexed()
      modifies Footprint()
      ensures Indexed() && fresh(Footprint() - old(Footprint())) && memo == old(memo)
      ensures LineAdds(old(Meaning()), text, Meaning())
      ensures Meaning() == AddLine(old(Meaning()), text)
    {
      LineMeans(Meaning(), text);
      hide LineAdds;
      var line := Trim(text);
      if Skipped(line) {
        return;
      }
      var rule := ParseRule(line);
      if rule.NoRule? {
        return;
      }
      LoadRule(rule.kind, rule.value);
    }

    method LoadRule(kind: RuleKind, value: string)
      requires Indexed()
      modifies Footprint()
      ensures Indexed() && fresh(Footprint() - old(Footprint())) && memo == old(memo)
      ensures Meaning() == AddRule(old(Meaning()), kind, value)
    {
      match kind {
        case Exact => domains := domains + {value};
        case Keyword => keywords := keywords + {value};
        case Suffix =>
          var clean := TrimEnd(TrimStart(value, IsDot), IsDot);
          if clean != "" {
            AddSuffix(clean);
          }
      }
    }

    method AddSuffix(clean: string)
      requires Indexed()
      modifies Footprint()
      ensures Indexed() && fresh(Footprint() - old(Footprint())) && memo == old(memo) && keywords == old(keywords)
      ensures trie.rules == old(trie.rules) + {NonEmpty(Split(clean))} && domains == old(domains) + {clean}
    {
      var labels := NonEmpty(Split(clean));
      NonEmptyHasNoEmpty(Split(clean));
      hide NonEmpty, Split, Grow, TrimEnd, TrimStart;
      trie.AddRule(labels);
      domains := domains + {clean};
    }

    method Evict(names: set<string>)
      requires Valid()
      modifies this`memo
      ensures Valid()
    {
      memo := map name | name in memo && name !in names :: memo[name];
    }

    method Matches(domain: string) returns (matched: bool)
      requires Valid()
      modifies this`memo
      ensures Valid()
      ensures var name := CleanDomain(Lower(TrimEnd(domain, IsDot)));
              Gapless(Split(name)) || name !in old(memo) ==> (matched <==> Test(Meaning(), name, Split(name)))
    {
      matched := MatchesLower(Lower(TrimEnd(domain, IsDot)));
    }

    /** The `rsplit` path. */
    method MatchesLower(lower: string) returns (matched: bool)
      requires Valid()
      modifies this`memo
      ensures Valid()
      ensures var name := CleanDomain(lower);
              && memo == old(memo)[name := matched]
              && (Gapless(Split(name)) || name !in old(memo) ==> (matched <==> Test(Meaning(), name, Split(name))))
    {
      var name := CleanDomain(lower);
      hide Split, Grow, NonEmpty, Reverse, SuffixMatch, Gapless, MemoSound, ContainsText, LabelRanges, HasKeyword;
      if name in memo {
        Recall(Meaning(), memo, name);
        matched := memo[name];
        return;
      }
      matched := name in domains;
      if !matched {
        matched := trie.MatchPieces(name);
      }
      if !matched {
        matched := AnyKeyword(keywords, name);
      }
      Remember(Meaning(), memo, name, matched);
      memo := memo[name := matched];
    }

    /** The path over precomputed label ranges; it shares the memo with the other one. */
    method MatchesLowerWithParts(lower: string, ranges: seq<Range>) returns (matched: bool)
      requires Valid() && LabelRanges(lower, ranges)
      modifies this`memo
      ensures Valid()
      ensures var name := CleanDomain(lower);
              && memo == old(memo)[name := matched]
              && (Gapless(Split(name)) ==> (matched <==> Test(Meaning(), name, Split(name))))
              && (name !in old(memo) ==> (matched <==> Test(Meaning(), name, NonEmpty(Split(name)))))
    {
      var name := CleanDomain(lower);
      hide Split, Grow, NonEmpty, Reverse, SuffixMatch, Gapless, MemoSound, ContainsText, LabelRanges, HasKeyword;
      if name in memo {
        Recall(Meaning(), memo, name);
        matched := memo[name];
        return;
      }
      ReadingsAgree(Meaning(), name);
      matched := name in domains;
      if !matched {
        matched := trie.MatchRanges(lower, name, ranges);
      }
      if !matched {
        matched := AnyKeyword(keywords, name);
      }
      Remember(Meaning(), memo, name, matched);
      memo := memo[name := matched];
    }
  }

  // ---------------------------------------------------------------------------- the AdBlock

  datatype Pattern = NoPattern | SuffixPattern(domain: string) | ExactPattern(domain: string)

  predicate IsSeparator(c: char) {
    !('a' <= c <= 'z' || 'A' <= c <= 'Z' || '0' <= c <= '9') && c != '.' && c != '-'
  }

  function TakeWord(s: string): (word: string)
    ensures word <= s
  {
    if s == "" || IsSpace(s[0]) then "" else [s[0]] + TakeWord(s[1..])
  }

  function SecondWord(s: string): string {
    TakeWord(TrimStart(s[|TakeWord(s)|..], IsSpace))
  }

  function ParsePattern(text: string): Pattern {
    var clean := Trim(text);
    if clean == "" || clean[0] == '!' || clean[0] == '[' || ContainsText(clean, "##") then NoPattern
    else if StartsWith(clean, "||") then SuffixPattern(Lower(TrimEnd(clean[2..], IsSeparator)))
    else if StartsWith(clean, "127.0.0.1 ") || StartsWith(clean, "0.0.0.0 ") then
      ExactPattern(Lower(SecondWord(clean)))
    else ExactPattern(Lower(clean))
  }

  /** The label lists of the suffix strings a strip loop can hit: all but the empty string. */
  ghost function LabelRules(suffix: set<string>): set<seq<string>> {
    set s | s in suffix && s != "" :: Split(s)
  }

  class RuleSet {
    var exact: set<string>
    var suffix: set<string>

    constructor ()
      ensures exact == {} && suffix == {}
    {
      exact, suffix := {}, {};
    }

    method Insert(text: string)
      modifies this
      ensures var p := ParsePattern(text);
              && exact == old(exact) + (if p.ExactPattern? then {p.domain} else {})
              && suffix == old(suffix) + (if p.SuffixPattern? then {p.domain} else {})
    {
      var p := ParsePattern(text);
      match p {
        case NoPattern =>
        case SuffixPattern(domain) => suffix := suffix + {domain};
        case ExactPattern(domain) => exact := exact + {domain};
      }
    }

    /** The strip loop computes the label suffix relation, for every name whatsoever. */
    method Matches(domain: string) returns (matched: bool)
      ensures matched <==> Lower(domain) in exact || SuffixMatch(LabelRules(suffix), Split(Lower(domain)))
    {
      var lower := Lower(domain);
      if lower in exact {
        return true;
      }
      var d := lower;
      while d != ""
        invariant SuffixMatch(LabelRules(suffix), Split(lower)) <==> SuffixMatch(LabelRules(suffix), Split(d))
        decreases |d|
      {
        if d in suffix {
          assert Split(d) in LabelRules(suffix) && IsSuffix(Split(d), Split(d));
          return true;
        }
        var pos := 0;
        while pos < |d| && d[pos] != '.'
          invariant pos <= |d| && Dotless(d[..pos])
        {
          assert d[..pos + 1] == d[..pos] + [d[pos]];
          pos := pos + 1;
        }
        if pos == |d| {
          assert d[..pos] == d;
          LastPiece(suffix, d);
          return false;
        }
        StripOne(suffix, d, pos);
        d := d[pos + 1..];
      }
      NothingMatchesNothing(suffix);
      matched := false;
    }
  }

  lemma RuleIsItsLabels(suffix: set<string>, d: string)
    ensures Split(d) in LabelRules(suffix) <==> d in suffix && d != ""
  {
    if Split(d) in LabelRules(suffix) {
      var s :| s in suffix && s != "" && Split(s) == Split(d);
      SplitInjective(s, d);
    }
  }

  lemma LastPiece(suffix: set<string>, d: string)
    requires Dotless(d) && d !in suffix
    ensures !SuffixMatch(LabelRules(suffix), Split(d))
  {
    SplitDotless(d);
    RuleIsItsLabels(suffix, d);
    assert forall r :: r != [] && IsSuffix(r, Split(d)) ==> r == Split(d);
  }

  lemma NothingMatchesNothing(suffix: set<string>)
    ensures !SuffixMatch(LabelRules(suffix), Split(""))
  {
    RuleIsItsLabels(suffix, "");
    assert forall r :: r != [] && IsSuffix(r, Split("")) ==> r == Split("");
  }

  /** Dropping the first label of an unlisted name loses no match. */
  lemma StripOne(suffix: set<string>, d: string, pos: nat)
    requires pos < |d| && d[pos] == '.' && Dotless(d[..pos]) && d !in suffix
    ensures SuffixMatch(LabelRules(suffix), Split(d)) <==> SuffixMatch(LabelRules(suffix), Split(d[pos + 1..]))
  {
    hide Split, Grow, IsSuffix;
    var head, rest := d[..pos], d[pos + 1..];
    assert d == head + "." + rest;
    SplitAtDot(head, rest);
    SplitDotless(head);
    RuleIsItsLabels(suffix, d);
    forall r | r in LabelRules(suffix) ensures IsSuffix(r, Split(d)) <==> IsSuffix(r, Split(rest)) {
      ShorterSuffix(r, head, Split(rest));
    }
  }

  lemma ShorterSuffix(r: seq<string>, head: string, rest: seq<string>)
    ensures IsSuffix(r, [head] + rest) <==> IsSuffix(r, rest) || r == [head] + rest
  {
    var whole := [head] + rest;
    if |r| <= |rest| {
      assert whole[|whole| - |r|..] == rest[|rest| - |r|..];
    } else if |r| == |whole| {
      assert whole[0..] == whole;
    }
  }

  /**
   * AdBlock's string set and GeoSite's trie hold the same label rules, hence match the same
   * names, for every list of well-formed lower-case domains.
   */
  lemma StringSetAndTrieHoldTheSameRules(domains: set<string>)
    requires forall s :: s in domains ==> s != "" && Lower(s) == s && [] !in Split(s)
    ensures LabelRules(domains) == set s | s in domains :: NonEmpty(Split(TrimEnd(Lower(s), IsDot)))
  {
    forall s | s in domains ensures NonEmpty(Split(TrimEnd(Lower(s), IsDot))) == Split(s) {
      FinalDotLeavesEmptyPiece(s);
      NonEmptyHasNoEmpty(Split(s));
    }
  }

  lemma FinalDotLeavesEmptyPiece(s: string)
    ensures s != "" && s[|s| - 1] == '.' ==> [] in Split(s)
  {
    if s != "" && s[|s| - 1] == '.' {
      assert Split(s)[|Split(s)| - 1] == [];
    }
  }

  /** A host-name character: neither trimmed as a separator nor a cosmetic mark. */
  predicate HostChar(c: char) {
    'a' <= c <= 'z' || 'A' <= c <= 'Z' || '0' <= c <= '9' || c == '.' || c == '-'
  }

  ghost predicate HostText(s: string) {
    s != "" && forall i :: 0 <= i < |s| ==> HostChar(s[i])
  }

  lemma {:induction false} TakeWordTakes(word: string, rest: string)
    requires forall i :: 0 <= i < |word| ==> !IsSpace(word[i])
    requires rest == "" || IsSpace(rest[0])
    ensures TakeWord(word + rest) == word
  {
    if word == "" {
      assert word + rest == rest;
    } else {
      TakeWordTakes(word[1..], rest);
      assert (word + rest)[1..] == word[1..] + rest;
    }
  }

  /** A line of host characters and spaces, with host characters at both ends, is no comment and is not trimmed. */
  lemma PlainLine(line: string)
    requires line != "" && HostChar(line[0]) && HostChar(line[|line| - 1])
    requires forall i :: 0 <= i < |line| ==> HostChar(line[i]) || line[i] == ' '
    ensures Trim(line) == line && !ContainsText(line, "##") && line[0] !in "![" && !StartsWith(line, "||")
  {
    assert line == "" + line + "";
    TrimsTo("", line, "");
    hide Trim, ContainsText;
    forall i | 0 <= i < |line| ensures line[i] != '#' {
      assert HostChar(line[i]) || line[i] == ' ';
    }
    NoMark(line);
  }

  lemma NoMark(line: string)
    requires forall i :: 0 <= i < |line| ==> line[i] != '#'
    ensures !ContainsText(line, "##")
  {
    forall i | 0 <= i <= |line| ensures !OccursAt(line, "##", i) {
      assert i + 2 <= |line| ==> line[i..i + 2][0] == line[i];
    }
  }

  /** A blank line, a line that starts with '!' or '[', and one with "##" in it give no pattern. */
  lemma CommentPatterns(text: string, rest: string, back: string)
    requires Blank(text) || Padded(text, "!" + rest) || Padded(text, "[" + rest) || text == rest + "##" + back
    ensures ParsePattern(text) == NoPattern
  {
    if Blank(text) {
      TrimsTo(text, "", "");
      assert text + "" + "" == text;
    } else if Padded(text, "!" + rest) {
      CommentStarts(text, "!", rest);
    } else if Padded(text, "[" + rest) {
      CommentStarts(text, "[", rest);
    } else {
      hide Trim, ContainsText;
      MarkStays(text, rest, back);
    }
  }

  lemma CommentStarts(text: string, sign: string, rest: string)
    requires sign in {"!", "["} && Padded(text, sign + rest)
    ensures ParsePattern(text) == NoPattern
  {
    var left: string, right: string :| Blank(left) && Blank(right) && text == left + (sign + rest) + right;
    assert text == left + sign + (rest + right);
    var t := TrimKeeps(left, sign, rest + right);
    hide Trim, ContainsText, StartsWith;
  }

  /** Trimming cannot reach across a '#'. */
  lemma MarkStays(text: string, front: string, back: string)
    requires text == front + "##" + back
    ensures ContainsText(Trim(text), "##")
  {
    var t := TrimStart(text, IsSpace);
    TrimStartSpelled(text, IsSpace);
    TrimEndSpelled(t, IsSpace);
    var cut := |text| - |t|;
    assert text[|front|] == '#' && text[|front| + 1] == '#';
    assert cut <= |front|;
    assert t[|front| + 1 - cut] == '#' && t[|front| - cut] == '#';
    hide TrimStart, TrimEnd;
    assert OccursAt(Trim(text), "##", |front| - cut);
  }

  lemma HostLine(address: string, host: string)
    requires HostText(address) && HostText(host)
    ensures SecondWord(address + " " + host) == host
    ensures Trim(address + " " + host) == address + " " + host && !ContainsText(address + " " + host, "##")
    ensures address[0] !in "![" && !StartsWith(address + " " + host, "||")
  {
    var line := address + " " + host;
    assert line == address + (" " + host);
    PlainLine(line);
    TakeWordTakes(address, " " + host);
    assert line[|address|..] == " " + host;
    assert (" " + host)[1..] == host;
    assert TrimStart(" " + host, IsSpace) == TrimStart(host, IsSpace) == host;
    TakeWordTakes(host, "");
    assert host + "" == host;
  }

  /** A host alone, and a host in a hosts file, is the exact rule of that host, in lower case. */
  lemma HostRules(host: string)
    requires HostText(host)
    ensures ParsePattern(host) == ExactPattern(Lower(host))
    ensures ParsePattern("0.0.0.0 " + host) == ExactPattern(Lower(host))
    ensures ParsePattern("127.0.0.1 " + host) == ExactPattern(Lower(host))
  {
    hide SecondWord, TakeWord, ContainsText, Trim;
    PlainLine(host);
    assert |host| > 7 ==> HostChar(host[7]);
    assert |host| > 9 ==> HostChar(host[9]);
    HostLine("0.0.0.0", host);
    HostLine("127.0.0.1", host);
    assert "0.0.0.0" + " " + host == "0.0.0.0 " + host;
    assert "127.0.0.1" + " " + host == "127.0.0.1 " + host;
  }

  /** The AdGuard form "||host^" is the suffix rule of that host, in lower case. */
  lemma AdGuardRule(host: string)
    requires HostText(host)
    ensures ParsePattern("||" + host + "^") == SuffixPattern(Lower(host))
  {
    var text := "||" + host + "^";
    assert text[0] == '|' && text[|text| - 1] == '^';
    assert Trim(text) == text;
    assert forall i :: 2 <= i < |text| - 1 ==> text[i] == host[i - 2];
    assert forall i :: 0 <= i < |text| ==> text[i] != '#';
    NoMark(text);
    assert text[2..] == host + "^";
    assert (host + "^")[..|host|] == host;
    assert TrimEnd(host + "^", IsSeparator) == TrimEnd(host, IsSeparator) == host;
  }
}
