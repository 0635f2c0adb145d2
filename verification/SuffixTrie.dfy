/**
 * The label trie of the two suffix indexes (src/plugins/geosite.rs, src/plugins/matcher.rs):
 * heap nodes, linked from the top-level label down, grown in place.
 */
module SuffixTrie {
  import opened Labels

  class TrieNode {
    var children: map<string, TrieNode>
    var isMatch: bool

    constructor ()
      ensures children == map[] && !isMatch
    {
      children, isMatch := map[], false;
    }
  }

  /** A path from the root: labels from the top level down. */
  type Path = seq<string>

  /** One label further down. */
  function Down(path: Path, part: string): Path {
    path + [part]
  }

  /** The tree shape of nodes under their paths, with their links. */
  ghost predicate ShapeOf(root: TrieNode, nodes: map<Path, TrieNode>, links: map<Path, map<string, TrieNode>>) {
    && links.Keys == nodes.Keys && [] in nodes && nodes[[]] == root
    && (forall p, q :: p in nodes && q in nodes && p != q ==> nodes[p] != nodes[q])
    && (forall p, l :: Down(p, l) in nodes ==> p in nodes)
    && (forall p, l :: p in nodes ==> (l in links[p] <==> Down(p, l) in nodes))
    && (forall p, l :: p in nodes && l in links[p] ==> links[p][l] == nodes[Down(p, l)])
  }

  lemma ShapeGrows(root: TrieNode, nodes: map<Path, TrieNode>, links: map<Path, map<string, TrieNode>>,
                   path: Path, part: string, child: TrieNode)
    requires ShapeOf(root, nodes, links) && path in nodes && Down(path, part) !in nodes
    requires forall p :: p in nodes ==> nodes[p] != child
    ensures ShapeOf(root, nodes[Down(path, part) := child],
                    links[path := links[path][part := child]][Down(path, part) := map[]])
  {
    LastStepIsUnique(path, part);
    assert forall l: string :: Down(Down(path, part), l) !in nodes;
  }

  class Trie {
    const root: TrieNode
    /** Every node, under the path that leads to it. */
    ghost var nodes: map<Path, TrieNode>
    /** The rules, as label lists in written order. */
    ghost var rules: set<seq<string>>

    ghost function Footprint(): set<object>
      reads this
    {
      {this} + nodes.Values
    }

    /** The tree shape: links and recorded paths agree, and no node has two paths. */
    ghost predicate Shape()
      reads this, nodes.Values
    {
      && [] in nodes && nodes[[]] == root
      && (forall p, q :: p in nodes && q in nodes && p != q ==> nodes[p] != nodes[q])
      && (forall p, l :: Down(p, l) in nodes ==> p in nodes)
      && (forall p, l :: p in nodes ==> (l in nodes[p].children <==> Down(p, l) in nodes))
      && (forall p, l :: p in nodes && l in nodes[p].children ==> nodes[p].children[l] == nodes[Down(p, l)])
    }

    /** p is a path and its node is marked as the end of a rule. */
    ghost predicate Marked(p: Path)
      reads this, nodes.Values
    {
      p in nodes && nodes[p].isMatch
    }

    /** The marked paths are the rules read from the top level down; no label is empty. */
    ghost predicate Valid()
      reads this, nodes.Values
    {
      && Shape()
      && (forall p :: Marked(p) <==> Reverse(p) in rules)
      && (forall r :: r in rules ==> [] !in r)
    }

    constructor ()
      ensures Valid() && fresh(Footprint()) && rules == {}
    {
      root := new TrieNode();
      rules := {};
      new;
      nodes := map[[] := root];
    }

    method AddRule(labels: seq<string>)
      requires Valid() && [] !in labels
      modifies Footprint()
      ensures Valid() && fresh(Footprint() - old(Footprint()))
      ensures rules == old(rules) + {labels}
    {
      PathOf(labels);
      hide Reverse;
      Insert(Reverse(labels));
      rules := rules + {labels};
    }

    /** `links` holds the links of every node, as values. */
    ghost predicate LinksAre(links: map<Path, map<string, TrieNode>>)
      reads this, nodes.Values
    {
      links.Keys == nodes.Keys && forall p :: p in nodes ==> links[p] == nodes[p].children
    }

    lemma ShapeInLinks(links: map<Path, map<string, TrieNode>>)
      requires LinksAre(links)
      ensures Shape() <==> ShapeOf(root, nodes, links)
    {
    }

    /** A new, unmarked node without children, linked below `node`. */
    method NewBelow(node: TrieNode, part: string) returns (child: TrieNode)
      modifies node`children
      ensures fresh(child) && child.children == map[] && !child.isMatch
      ensures node.children == old(node.children)[part := child]
    {
      child := new TrieNode();
      node.children := node.children[part := child];
    }

    /** Links a new node below the one at `path`; the tree keeps its shape. */
    method Attach(ghost path: Path, node: TrieNode, part: string) returns (child: TrieNode)
      requires Shape() && path in nodes && nodes[path] == node && part !in node.children
      modifies this`nodes, node`children
      ensures Shape() && fresh(child) && !child.isMatch
      ensures nodes == old(nodes)[Down(path, part) := child] && Down(path, part) !in old(nodes)
    {
      ghost var before, grown := nodes, Down(path, part);
      ghost var links: map<Path, map<string, TrieNode>> := map p | p in nodes :: nodes[p].children;
      ShapeInLinks(links);
      assert grown !in nodes && forall p :: p in nodes && p != path ==> nodes[p] != node;
      hide Shape, ShapeOf, Reverse, Down;
      child := NewBelow(node, part);
      nodes := nodes[grown := child];
      ShapeGrows(root, before, links, path, part, child);
      links := links[path := links[path][part := child]][grown := map[]];
      assert forall p :: p in before ==> links[p] == before[p].children;
      ShapeInLinks(links);
    }

    method AddChild(ghost path: Path, node: TrieNode, part: string) returns (child: TrieNode)
      requires Shape() && path in nodes && nodes[path] == node && part !in node.children
      modifies this`nodes, node`children
      ensures Shape() && fresh(child) && nodes == old(nodes)[Down(path, part) := child]
      ensures forall p :: Marked(p) <==> old(Marked(p))
    {
      hide Shape, Reverse;
      child := Attach(path, node, part);
    }

    /** Grows the missing nodes of a path and marks its end. */
    method Insert(path: Path)
      requires Shape()
      modifies Footprint()
      ensures Shape() && fresh(Footprint() - old(Footprint()))
      ensures forall p :: Marked(p) <==> old(Marked(p)) || p == path
      ensures rules == old(rules)
    {
      var node := root;
      assert path[..0] == [];
      for i := 0 to |path|
        invariant Shape() && fresh(Footprint() - old(Footprint()))
        invariant path[..i] in nodes && node == nodes[path[..i]]
        invariant forall p :: Marked(p) <==> old(Marked(p))
        invariant rules == old(rules)
      {
        assert path[..i + 1] == Down(path[..i], path[i]);
        if path[i] in node.children {
          node := node.children[path[i]];
        } else {
          node := AddChild(path[..i], node, path[i]);
        }
      }
      assert path[..|path|] == path;
      node.isMatch := true;
    }

    /** Below a path that is not in the tree nothing is marked. */
    lemma {:induction false} NothingBelow(path: Path, longer: Path)
      requires Shape() && path !in nodes && path <= longer
      ensures longer !in nodes
      decreases |longer|
    {
      if path != longer {
        var shorter := longer[..|longer| - 1];
        NothingBelow(path, shorter);
        assert longer == Down(shorter, longer[|longer| - 1]);
      }
    }

    /** The lookup that visits every piece of the name, from the right (`rsplit`). */
    method MatchPieces(name: string) returns (found: bool)
      requires Valid()
      ensures found <==> SuffixMatch(rules, Split(name))
    {
      MarkedPrefixIsRuleSuffix(Split(name));
      hide Split, Grow, Reverse, SuffixMatch;
      var pieces := Reverse(Split(name));
      found := MatchFromTop(pieces);
    }

    /** Some non-empty prefix of the path is marked. */
    ghost predicate MarkedPrefix(path: Path)
      reads this, nodes.Values
    {
      exists k :: 1 <= k <= |path| && Marked(path[..k])
    }

    method MatchFromTop(path: Path) returns (found: bool)
      requires Shape()
      ensures found <==> MarkedPrefix(path)
    {
      var node := root;
      assert path[..0] == [];
      for i := 0 to |path|
        invariant path[..i] in nodes && node == nodes[path[..i]]
        invariant forall k :: 1 <= k <= i ==> !Marked(path[..k])
      {
        assert path[..i + 1] == Down(path[..i], path[i]);
        if path[i] in node.children {
          node := node.children[path[i]];
          if node.isMatch {
            assert Marked(path[..i + 1]);
            return true;
          }
        } else {
          NothingMarkedBelow(path, i + 1);
          return false;
        }
      }
      return false;
    }

    lemma NothingMarkedBelow(path: Path, cut: nat)
      requires Shape() && cut <= |path| && path[..cut] !in nodes
      ensures forall k :: cut <= k <= |path| ==> !Marked(path[..k])
    {
      forall k | cut <= k <= |path| ensures path[..k] !in nodes {
        NothingBelow(path[..cut], path[..k]);
      }
    }

    /**
     * The lookup over precomputed ranges of the name before its trailing dots were cut:
     * ranges reaching past the end are skipped, the others are read from the right.
     */
    method MatchRanges(lower: string, clean: string, ranges: seq<Range>) returns (found: bool)
      requires Valid() && LabelRanges(lower, ranges)
      requires clean <= lower && forall i :: |clean| <= i < |lower| ==> lower[i] == '.'
      ensures found <==> SuffixMatch(rules, NonEmpty(Split(clean)))
    {
      ghost var path := RangesReadBackwards(lower, clean, ranges);
      MarkedPrefixIsRuleSuffix(NonEmpty(Split(clean)));
      assert Shape();
      hide Split, Grow, NonEmpty, Reverse, SuffixMatch, LabelRanges, Valid, Shape;
      found := MatchSlices(clean, ranges, path);
    }

    /** The walk down from the top over slices of the name, taken from the right. */
    method MatchSlices(clean: string, ranges: seq<Range>, ghost path: Path) returns (found: bool)
      requires Shape() && |path| == |ranges|
      requires forall i {:trigger ranges[i]} :: 0 <= i < |ranges| ==>
                 ranges[i].0 <= ranges[i].1 <= |clean| && path[|ranges| - 1 - i] == clean[ranges[i].0..ranges[i].1]
      ensures found <==> MarkedPrefix(path)
    {
      var node := root;
      assert path[..0] == [];
      var i := |ranges|;
      ghost var depth := 0;
      while i > 0
        invariant 0 <= i <= |ranges| && depth + i == |ranges|
        invariant path[..depth] in nodes && node == nodes[path[..depth]]
        invariant forall k :: 1 <= k <= depth ==> !Marked(path[..k])
      {
        i := i - 1;
        if ranges[i].1 <= |clean| {
          var part := clean[ranges[i].0..ranges[i].1];
          assert path[..depth + 1] == Down(path[..depth], part);
          if part in node.children {
            node := node.children[part];
            if node.isMatch {
              assert Marked(path[..depth + 1]);
              return true;
            }
          } else {
            NothingMarkedBelow(path, depth + 1);
            return false;
          }
        }
        depth := depth + 1;
      }
      return false;
    }

    /** Marked prefixes seen from the top are the rules that are suffixes of the labels. */
    lemma MarkedPrefixIsRuleSuffix(labels: seq<string>)
      requires Valid()
      ensures MarkedPrefix(Reverse(labels)) <==> SuffixMatch(rules, labels)
    {
      ReverseTwice(labels);
      if MarkedPrefix(Reverse(labels)) {
        var k :| 1 <= k <= |Reverse(labels)| && Marked(Reverse(labels)[..k]);
        var rule := Reverse(Reverse(labels)[..k]);
        ReverseTwice(Reverse(labels)[..k]);
        SuffixIsReversedPrefix(rule, labels);
        assert rule in rules && rule != [];
      }
      if SuffixMatch(rules, labels) {
        var rule :| rule in rules && rule != [] && IsSuffix(rule, labels);
        SuffixIsReversedPrefix(rule, labels);
        ReverseTwice(rule);
        assert Reverse(labels)[..|rule|] == Reverse(rule);
        assert Marked(Reverse(rule));
      }
    }
  }

  /** The usable ranges, taken from the last to the first, are the labels from the top down. */
  lemma RangesReadBackwards(lower: string, clean: string, ranges: seq<Range>) returns (path: Path)
    requires LabelRanges(lower, ranges)
    requires clean <= lower && forall i :: |clean| <= i < |lower| ==> lower[i] == '.'
    ensures path == Reverse(NonEmpty(Split(clean))) && |path| == |ranges|
    ensures forall i {:trigger ranges[i]} :: 0 <= i < |ranges| ==>
              ranges[i].0 <= ranges[i].1 <= |clean| && path[|ranges| - 1 - i] == clean[ranges[i].0..ranges[i].1]
  {
    RangesIgnoreTrailingDots(lower, clean, ranges);
    var slices := Slices(clean, ranges);
    path := Reverse(slices);
    ReverseTwice(slices);
    forall i | 0 <= i < |ranges| ensures path[|ranges| - 1 - i] == clean[ranges[i].0..ranges[i].1] {
      ReverseAt(slices, |ranges| - 1 - i);
    }
  }

  lemma LastStepIsUnique(path: Path, part: string)
    ensures forall p: Path, l: string :: Down(p, l) == path + [part] ==> p == path && l == part
  {
    forall p: Path, l: string | Down(p, l) == path + [part] ensures p == path && l == part {
      assert (Down(p, l))[..|p|] == p && (Down(p, l))[|p|] == l;
      assert (path + [part])[..|path|] == path && (path + [part])[|path|] == part;
    }
  }

  lemma PathOf(labels: seq<string>)
    ensures forall p :: p == Reverse(labels) <==> Reverse(p) == labels
  {
    forall p ensures p == Reverse(labels) <==> Reverse(p) == labels {
      ReverseTwice(p);
      ReverseTwice(labels);
    }
  }

  lemma {:induction false} ReverseAt(labels: seq<string>, k: nat)
    requires k < |labels|
    ensures |Reverse(labels)| == |labels| && Reverse(labels)[k] == labels[|labels| - 1 - k]
  {
    ReverseTwice(labels);
    ReverseTwice(labels[1..]);
    if k < |labels| - 1 {
      ReverseAt(labels[1..], k);
    }
  }
}
