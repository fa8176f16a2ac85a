/**
  The resource-matching post-processor of the abbreviation parser.

  `MatchResources` walks the children of a node: each child gets the
  resource the lookup finds for it, and a child whose resource is a
  reference to another abbreviation is replaced, where it stands, by the
  top-level nodes of that abbreviation's parse, which inherit the child's
  repeat count, children and attributes.

  The lookup, the parser and the default syntax are parameters. Nodes are
  values; the recursion into the replaced child, whose children the
  source has already moved under the parsed subtree, is modelled by
  resolving the child's children first and grafting the resolved list.
 */
module ResourceMatcher {
  import opened AbbreviationTree

  /** What the resource lookup returns for a node. */
  datatype Matched =
    | Text(text: string)       // a plain string
    | Found(element: Element)  // an element descriptor (possibly a reference)
    | Absent                   // no resource for this node

  /** `resources.getMatchedResource(node, syntax)` */
  type Lookup = (Node, string) -> Matched

  /** `parser.parse(abbreviation, {syntax: syntax})`: the root of a fresh tree */
  type Parse = (string, string) -> Node

  datatype Options = Options(syntax: Option<string>)

  // ---------------------------------------------------------------------
  // Specification

  /** What replaces a referencing `child`, given the parsed `subtree` and the
      child's own children `kids`, already resolved. */
  function Expand(child: Node, subtree: Node, kids: seq<Node>): seq<Node> {
    var top := if child.repeatCount > 1
               then TransferRepeat(subtree.children, child.repeatCount)
               else subtree.children;
    Inherit(Graft(top, kids), child.attributes)
  }

  /** The nodes that stand, after matching, where `child` stood. */
  function ResolveChild(child: Node, syntax: string, lookup: Lookup, parse: Parse): seq<Node>
    decreases child
  {
    var kids := ResolveForest(child.children, syntax, lookup, parse);
    match lookup(child, syntax)
    case Text(s) => [child.(resource := Some(Snippet(s)), children := kids)]
    case Found(Reference(d)) => Expand(child, parse(d, syntax), kids)
    case Found(e) => [child.(resource := Some(e), children := kids)]
    case Absent => [child.(resource := None, children := kids)]
  }

  /** Matching a list of siblings: each one is resolved once, in order. */
  function ResolveForest(cs: seq<Node>, syntax: string, lookup: Lookup, parse: Parse): seq<Node>
    decreases cs
  {
    if cs == [] then []
    else ResolveChild(cs[0], syntax, lookup, parse) + ResolveForest(cs[1..], syntax, lookup, parse)
  }

  /** A node after matching: its own fields are kept, its children resolved. */
  function Resolve(node: Node, syntax: string, lookup: Lookup, parse: Parse): Node {
    node.(children := ResolveForest(node.children, syntax, lookup, parse))
  }

  /** `options.syntax || emmet.defaultSyntax()`: a missing or empty syntax is falsy. */
  function SyntaxOf(options: Options, defaultSyntax: string): string {
    if options.syntax.Some? && options.syntax.value != "" then options.syntax.value else defaultSyntax
  }

  // ---------------------------------------------------------------------
  // Implementation

  /** `matchResources(node, syntax)`: the children are iterated over a copy
      taken before the loop, while the live list is rewritten by splices. */
  method MatchResources(node: Node, syntax: string, lookup: Lookup, parse: Parse) returns (r: Node)
    ensures r == Resolve(node, syntax, lookup, parse)
    decreases node
  {
    var snapshot := node.children;
    var live := node.children;
    var pos := 0;
    for i := 0 to |snapshot|
      invariant live == ResolveForest(snapshot[..i], syntax, lookup, parse) + snapshot[i..]
      invariant pos == |ResolveForest(snapshot[..i], syntax, lookup, parse)|
    {
      var child := snapshot[i];
      var before := live;
      var found := lookup(child, syntax);
      var resolved := MatchResources(child, syntax, lookup, parse);
      var items: seq<Node>;
      match found {
        case Text(s) =>
          // `child.data('resource', elements.create('snippet', r))`
          items := [resolved.(resource := Some(Snippet(s)))];
          live := live[pos := items[0]];
        case Found(Reference(d)) =>
          var subtree := parse(d, syntax);
          items := ExpandReference(child, subtree, resolved.children);
          // `child.replace(subtree.children)`
          live := Splice(live, pos, items);
        case Found(e) =>
          // `child.data('resource', r)`
          items := [resolved.(resource := Some(e))];
          live := live[pos := items[0]];
        case Absent =>
          items := [resolved.(resource := None)];
          live := live[pos := items[0]];
      }
      assert items == ResolveChild(child, syntax, lookup, parse);
      SpliceStep(snapshot, i, before, pos, items, syntax, lookup, parse);
      pos := pos + |items|;
    }
    assert snapshot[..|snapshot|] == snapshot;
    r := node.(children := live);
  }

  lemma SpliceStep(snapshot: seq<Node>, i: nat, live: seq<Node>, pos: nat, items: seq<Node>,
                   syntax: string, lookup: Lookup, parse: Parse)
    requires i < |snapshot|
    requires live == ResolveForest(snapshot[..i], syntax, lookup, parse) + snapshot[i..]
    requires pos == |ResolveForest(snapshot[..i], syntax, lookup, parse)|
    requires items == ResolveChild(snapshot[i], syntax, lookup, parse)
    ensures pos < |live| && live[pos] == snapshot[i]
    ensures Splice(live, pos, items) == ResolveForest(snapshot[..i + 1], syntax, lookup, parse) + snapshot[i + 1..]
    ensures |items| == 1 ==> live[pos := items[0]] == Splice(live, pos, items)
  {
    ResolveForestAppend(snapshot[..i], [snapshot[i]], syntax, lookup, parse);
    assert snapshot[..i + 1] == snapshot[..i] + [snapshot[i]];
    assert snapshot[i..] == [snapshot[i]] + snapshot[i + 1..];
    assert ResolveForest([snapshot[i]], syntax, lookup, parse) == items by {
      assert [snapshot[i]][1..] == [];
    }
  }

  /** Lines 36-68 for a referencing `child`: repeat transfer, graft of the
      child's (resolved) children, attribute copy. */
  method ExpandReference(child: Node, subtree: Node, kids: seq<Node>) returns (items: seq<Node>)
    ensures items == Expand(child, subtree, kids)
  {
    var top := subtree.children;
    if child.repeatCount > 1 {
      top := TransferRepeat(top, child.repeatCount);
    }
    var deepest := DeepestChild(top);
    if deepest.Some? {
      var grown := AddChildren(deepest.value, kids);
      top := ReplaceDeepest(top, grown);
    }
    items := CopyAttributes(top, child.attributes);
  }

  /** `deepestChild.addChild(c)` for each `c` of `cs`, in order. */
  method AddChildren(target: Node, cs: seq<Node>) returns (t: Node)
    ensures t == target.(children := target.children + cs)
  {
    t := target;
    for j := 0 to |cs|
      invariant t == target.(children := target.children + cs[..j])
    {
      assert cs[..j + 1] == cs[..j] + [cs[j]];
      t := t.(children := t.children + [cs[j]]);
    }
    assert cs[..|cs|] == cs;
  }

  /** For each top-level node, `node.attribute(attr.name, attr.value)` for each
      attribute of the referencing child, in order. */
  method CopyAttributes(nodes: seq<Node>, attrs: seq<Attr>) returns (r: seq<Node>)
    ensures r == Inherit(nodes, attrs)
  {
    r := nodes;
    for i := 0 to |nodes|
      invariant |r| == |nodes|
      invariant forall k :: 0 <= k < i ==> r[k] == Inherit(nodes, attrs)[k]
      invariant forall k :: i <= k < |nodes| ==> r[k] == nodes[k]
    {
      var a := r[i].attributes;
      for j := 0 to |attrs|
        invariant MergeAttributes(a, attrs[j..]) == MergeAttributes(nodes[i].attributes, attrs)
      {
        assert attrs[j..][1..] == attrs[j + 1..];
        a := SetAttribute(a, attrs[j].name, attrs[j].value);
      }
      assert attrs[|attrs|..] == [];
      r := r[i := r[i].(attributes := a)];
    }
  }

  /** The post-processor: pick the syntax once, then match from the root. */
  method Postprocess(tree: Node, options: Options, defaultSyntax: string, lookup: Lookup, parse: Parse)
    returns (r: Node)
    ensures r == Resolve(tree, SyntaxOf(options, defaultSyntax), lookup, parse)
  {
    var syntax := SyntaxOf(options, defaultSyntax);
    r := MatchResources(tree, syntax, lookup, parse);
  }

  // ---------------------------------------------------------------------
  // Properties

  lemma {:induction false} ResolveForestAppend(a: seq<Node>, b: seq<Node>, syntax: string, lookup: Lookup, parse: Parse)
    ensures ResolveForest(a + b, syntax, lookup, parse) ==
            ResolveForest(a, syntax, lookup, parse) + ResolveForest(b, syntax, lookup, parse)
  {
    if a == [] {
      assert a + b == b;
    } else {
      assert (a + b)[0] == a[0];
      assert (a + b)[1..] == a[1..] + b;
      ResolveForestAppend(a[1..], b, syntax, lookup, parse);
    }
  }

  /** Every child of the snapshot is processed exactly once, and what it
      becomes stands between what its left and right siblings become. */
  lemma EachChildOnce(cs: seq<Node>, i: nat, syntax: string, lookup: Lookup, parse: Parse)
    requires i < |cs|
    ensures ResolveForest(cs, syntax, lookup, parse) ==
            ResolveForest(cs[..i], syntax, lookup, parse)
            + ResolveChild(cs[i], syntax, lookup, parse)
            + ResolveForest(cs[i + 1..], syntax, lookup, parse)
  {
    assert cs == cs[..i] + ([cs[i]] + cs[i + 1..]);
    ResolveForestAppend(cs[..i], [cs[i]] + cs[i + 1..], syntax, lookup, parse);
    assert ([cs[i]] + cs[i + 1..])[0] == cs[i];
    assert ([cs[i]] + cs[i + 1..])[1..] == cs[i + 1..];
  }

  predicate IsReferenceMatch(m: Matched) {
    m.Found? && m.element.Reference?
  }

  /** The resource a non-reference lookup result attaches to its node. */
  function Attached(m: Matched): Option<Element>
    requires !IsReferenceMatch(m)
  {
    match m
    case Text(s) => Some(Snippet(s))
    case Found(e) => Some(e)
    case Absent => None
  }

  /** A child whose resource is not a reference stays where it was, as a
      single node with its own name, attributes and repeat fields, the
      attached resource (a string wrapped as a snippet, anything else as
      found) and its children resolved in turn; its siblings are untouched. */
  lemma NonReferenceInPlace(cs: seq<Node>, i: nat, syntax: string, lookup: Lookup, parse: Parse)
    requires i < |cs| && !IsReferenceMatch(lookup(cs[i], syntax))
    ensures var r := ResolveForest(cs, syntax, lookup, parse);
            var p := |ResolveForest(cs[..i], syntax, lookup, parse)|;
            p < |r| &&
            r[..p] == ResolveForest(cs[..i], syntax, lookup, parse) &&
            r[p + 1..] == ResolveForest(cs[i + 1..], syntax, lookup, parse) &&
            r[p] == cs[i].(resource := Attached(lookup(cs[i], syntax)),
                           children := ResolveForest(cs[i].children, syntax, lookup, parse))
  {
    EachChildOnce(cs, i, syntax, lookup, parse);
  }

  /** A referencing child is replaced, at the position it had, by the
      expansion of the parsed reference; its siblings keep their order. */
  lemma ReferenceSplicedInPlace(cs: seq<Node>, i: nat, syntax: string, lookup: Lookup, parse: Parse)
    requires i < |cs| && IsReferenceMatch(lookup(cs[i], syntax))
    ensures var r := ResolveForest(cs, syntax, lookup, parse);
            var p := |ResolveForest(cs[..i], syntax, lookup, parse)|;
            var e := Expand(cs[i], parse(lookup(cs[i], syntax).element.data, syntax),
                            ResolveForest(cs[i].children, syntax, lookup, parse));
            p + |e| <= |r| &&
            r[..p] == ResolveForest(cs[..i], syntax, lookup, parse) &&
            r[p..p + |e|] == e &&
            r[p + |e|..] == ResolveForest(cs[i + 1..], syntax, lookup, parse)
  {
    EachChildOnce(cs, i, syntax, lookup, parse);
  }

  /** The top-level nodes of an expansion are the subtree's, in order, with
      the caller's repeat count where they had an implicit one (only when
      the caller repeats more than once), and with the caller's attributes
      written over their own. */
  lemma ExpandTopLevel(child: Node, subtree: Node, kids: seq<Node>, i: nat, name: string)
    requires i < |subtree.children|
    ensures var e := Expand(child, subtree, kids);
            var t := subtree.children[i];
            |e| == |subtree.children| &&
            e[i].name == t.name && e[i].resource == t.resource &&
            (if child.repeatCount > 1 && t.hasImplicitRepeat
             then e[i].repeatCount == child.repeatCount && !e[i].hasImplicitRepeat
             else e[i].repeatCount == t.repeatCount && e[i].hasImplicitRepeat == t.hasImplicitRepeat) &&
            AttrValue(e[i].attributes, name) ==
              if LastValue(child.attributes, name).Some? then LastValue(child.attributes, name)
              else AttrValue(t.attributes, name)
  {
    var top := if child.repeatCount > 1
               then TransferRepeat(subtree.children, child.repeatCount)
               else subtree.children;
    if child.repeatCount > 1 {
      TransferRepeatTop(subtree.children, child.repeatCount, i);
    }
    GraftTop(top, kids, i);
    InheritSpec(Graft(top, kids), child.attributes, i, name);
  }

  /** Below the top level, an expansion repeats exactly as the repeat
      transfer says: in pre-order, the subtree's nodes come first, each with
      the caller's count where it had an implicit repeat and the caller
      repeats more than once, and unchanged otherwise; the child's resolved
      children come last, unchanged. Without any top-level node, the
      expansion is empty and the child's children are lost. */
  lemma ExpandPreOrder(child: Node, subtree: Node, kids: seq<Node>)
    ensures subtree.children == [] ==> Expand(child, subtree, kids) == []
    ensures subtree.children != [] ==>
              var e := Labels(Expand(child, subtree, kids));
              var t := Labels(subtree.children);
              |e| == |t| + |Labels(kids)| &&
              EndsWith(e, Labels(kids)) &&
              forall i :: 0 <= i < |t| ==>
                if child.repeatCount > 1 && t[i].hasImplicitRepeat
                then e[i].repeatCount == child.repeatCount && !e[i].hasImplicitRepeat
                else e[i].repeatCount == t[i].repeatCount && e[i].hasImplicitRepeat == t[i].hasImplicitRepeat
  {
    if subtree.children != [] {
      var f := subtree.children;
      var top := if child.repeatCount > 1 then TransferRepeat(f, child.repeatCount) else f;
      var t := Labels(f);
      TransferRepeatLabels(f, child.repeatCount);
      assert top != [] by { TransferRepeatLength(f, child.repeatCount); }
      var e := Labels(Expand(child, subtree, kids));
      ExpandKeepsRepeat(top, kids, child.attributes);
      forall i | 0 <= i < |t|
        ensures if child.repeatCount > 1 && t[i].hasImplicitRepeat
                then e[i].repeatCount == child.repeatCount && !e[i].hasImplicitRepeat
                else e[i].repeatCount == t[i].repeatCount && e[i].hasImplicitRepeat == t[i].hasImplicitRepeat
      {
        if child.repeatCount > 1 {
          ConsumeAllAt(t, child.repeatCount, i);
        }
      }
      ExpandEndsWithKids(top, kids, child.attributes);
    }
  }

  /** Grafting and inheritance leave the repeat fields of every node alone. */
  lemma ExpandKeepsRepeat(top: seq<Node>, kids: seq<Node>, attrs: seq<Attr>)
    requires top != []
    ensures var e := Labels(Inherit(Graft(top, kids), attrs));
            |e| == |Labels(top)| + |Labels(kids)| &&
            forall i :: 0 <= i < |Labels(top)| ==>
              e[i].repeatCount == Labels(top)[i].repeatCount &&
              e[i].hasImplicitRepeat == Labels(top)[i].hasImplicitRepeat
  {
    var g := Graft(top, kids);
    GraftSpec(top, kids);
    var n := |Labels(top)|;
    assert Labels(g) == Labels(top)[..n - 1] + [Labels(top)[n - 1].(arity := |kids|)] + Labels(kids);
    InheritLabels(g, attrs);
    var e := Labels(Inherit(g, attrs));
    forall i | 0 <= i < n
      ensures e[i].repeatCount == Labels(top)[i].repeatCount
      ensures e[i].hasImplicitRepeat == Labels(top)[i].hasImplicitRepeat
    {
      StripAttributesAt(e, i);
      StripAttributesAt(Labels(g), i);
      if i < n - 1 {
        assert Labels(g)[i] == Labels(top)[i];
      } else {
        assert Labels(g)[i] == Labels(top)[n - 1].(arity := |kids|);
      }
    }
  }

  lemma ExpandEndsWithKids(top: seq<Node>, kids: seq<Node>, attrs: seq<Attr>)
    requires top != []
    ensures EndsWith(Labels(Inherit(Graft(top, kids), attrs)), Labels(kids))
  {
    var g := Graft(top, kids);
    var ex := Inherit(g, attrs);
    var k := |top| - 1;
    GraftLastChildren(top, kids);
    InheritSpec(g, attrs, k, "");
    assert ex == ex[..k] + [ex[k]];
    LabelsAppend(ex[..k], [ex[k]]);
    LabelsSingle(ex[k]);
    var c := Labels(ex[k].children);
    assert Labels(ex) == (Labels(ex[..k]) + [LabelOf(ex[k])]) + c;
    assert c == Labels(g[k].children);
  }

  /** When the nested parses carry no references (they are matched by the
      parser's own run of this post-processor), none remains anywhere below
      the node after matching: every reference met was expanded away. */
  lemma {:induction false} NoReferenceRemains(cs: seq<Node>, syntax: string, lookup: Lookup, parse: Parse)
    requires forall d :: NoReference(parse(d, syntax).children)
    ensures NoReference(ResolveForest(cs, syntax, lookup, parse))
    decreases cs
  {
    if cs != [] {
      var c := cs[0];
      var kids := ResolveForest(c.children, syntax, lookup, parse);
      NoReferenceRemains(c.children, syntax, lookup, parse);
      NoReferenceRemains(cs[1..], syntax, lookup, parse);
      var here := ResolveChild(c, syntax, lookup, parse);
      if IsReferenceMatch(lookup(c, syntax)) {
        var subtree := parse(lookup(c, syntax).element.data, syntax);
        var top := if c.repeatCount > 1 then TransferRepeat(subtree.children, c.repeatCount) else subtree.children;
        if c.repeatCount > 1 {
          NoReferenceTransfer(subtree.children, c.repeatCount);
        }
        NoReferenceGraft(top, kids);
        NoReferenceInherit(Graft(top, kids), c.attributes);
      } else {
        LabelsSingle(here[0]);
        assert here == [here[0]];
      }
      assert NoReference(here);
      LabelsAppend(here, ResolveForest(cs[1..], syntax, lookup, parse));
    }
  }

  /** Clearing the resource of every node of a forest. */
  function ClearResources(f: seq<Node>): seq<Node> {
    if f == [] then []
    else [f[0].(resource := None, children := ClearResources(f[0].children))] + ClearResources(f[1..])
  }

  /** With a lookup that finds nothing, matching keeps the tree's structure
      and only clears the resources below the node. */
  lemma {:induction false} AbsentLookupClears(cs: seq<Node>, syntax: string, lookup: Lookup, parse: Parse)
    requires forall n :: lookup(n, syntax) == Absent
    ensures ResolveForest(cs, syntax, lookup, parse) == ClearResources(cs)
    decreases cs
  {
    if cs != [] {
      AbsentLookupClears(cs[0].children, syntax, lookup, parse);
      AbsentLookupClears(cs[1..], syntax, lookup, parse);
    }
  }

  lemma {:induction false} ClearResourcesIdempotent(f: seq<Node>)
    ensures ClearResources(ClearResources(f)) == ClearResources(f)
  {
    if f != [] {
      var c := ClearResources(f);
      assert c[0].children == ClearResources(f[0].children);
      assert c[1..] == ClearResources(f[1..]);
      ClearResourcesIdempotent(f[0].children);
      ClearResourcesIdempotent(f[1..]);
    }
  }

  /** Matching twice with a lookup that finds nothing is the same as matching once. */
  lemma AbsentLookupIdempotent(node: Node, syntax: string, lookup: Lookup, parse: Parse)
    requires forall n :: lookup(n, syntax) == Absent
    ensures Resolve(Resolve(node, syntax, lookup, parse), syntax, lookup, parse) == Resolve(node, syntax, lookup, parse)
  {
    AbsentLookupClears(node.children, syntax, lookup, parse);
    AbsentLookupClears(ClearResources(node.children), syntax, lookup, parse);
    ClearResourcesIdempotent(node.children);
  }

  /** Only the one syntax is ever used: lookups and parses under any other
      syntax do not affect the result. */
  lemma {:induction false} OneSyntaxThroughout(cs: seq<Node>, syntax: string,
                                               lookup: Lookup, lookup': Lookup, parse: Parse, parse': Parse)
    requires forall n :: lookup(n, syntax) == lookup'(n, syntax)
    requires forall d :: parse(d, syntax) == parse'(d, syntax)
    ensures ResolveForest(cs, syntax, lookup, parse) == ResolveForest(cs, syntax, lookup', parse')
    decreases cs
  {
    if cs != [] {
      OneSyntaxThroughout(cs[0].children, syntax, lookup, lookup', parse, parse');
      OneSyntaxThroughout(cs[1..], syntax, lookup, lookup', parse, parse');
    }
  }
}
