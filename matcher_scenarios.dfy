/**
  Worked cases of the resource matcher on small trees: a reference to
  `ul>li` under a repeated node, attribute override, grafting under the
  deepest child, and a reference to a single childless element.
 */
module MatcherScenarios {
  import opened AbbreviationTree
  import opened ResourceMatcher

  function Plain(name: string, attributes: seq<Attr>, repeatCount: int, implicit: bool, children: seq<Node>): Node {
    Node(name, attributes, repeatCount, implicit, None, children)
  }

  /** A lookup that finds the reference `data` for nodes called `alias` and nothing else. */
  function AliasLookup(alias: string, data: string): Lookup {
    (n: Node, s: string) => if n.name == alias then Found(Reference(data)) else Absent
  }

  /** A parser that returns `root` for every abbreviation. */
  function ConstantParse(root: Node): Parse {
    (d: string, s: string) => root
  }

  /** `menu*3` referring to `ul>li`, where `li` has an implicit repeat:
      the spliced `li` repeats three times and is no longer marked. */
  lemma RepeatIsInherited()
    ensures var li := Plain("li", [], 1, true, []);
            var root := Plain("", [], 1, false, [Plain("ul", [], 1, false, [li])]);
            ResolveForest([Plain("menu", [], 3, false, [])], "html",
                          AliasLookup("menu", "ul>li"), ConstantParse(root)) ==
              [Plain("ul", [], 1, false, [Plain("li", [], 3, false, [])])]
  {
    var li := Plain("li", [], 1, true, []);
    var root := Plain("", [], 1, false, [Plain("ul", [], 1, false, [li])]);
    var child := Plain("menu", [], 3, false, []);
    var lookup := AliasLookup("menu", "ul>li");
    var parse := ConstantParse(root);
    assert ResolveForest([], "html", lookup, parse) == [];
    var ul := root.children[0];
    var li' := Plain("li", [], 3, false, []);
    var ul' := Plain("ul", [], 1, false, [li']);
    assert [li][1..] == [] && [ul][1..] == [];
    assert TransferRepeat([li], 3) == [li'];
    var top := TransferRepeat(root.children, 3);
    assert top == [ul'];
    assert DeepestOf(li') == li' && DeepestOf(ul') == li';
    assert DeepestChild(top) == Some(li');
    assert li'.(children := li'.children + []) == li';
    assert [li'][..0] == [] && [ul'][..0] == [];
    assert ReplaceDeepest([li'], li') == [li'];
    assert Graft(top, []) == top;
    assert MergeAttributes([], []) == [];
    assert ResolveForest([child], "html", lookup, parse) == Expand(child, root, []) by {
      assert [child][1..] == [];
    }
  }

  /** `a[class=x]` referring to an abbreviation whose top node has `class=y`:
      the caller's value wins. */
  lemma CallerAttributeWins()
    ensures var root := Plain("", [], 1, false, [Plain("p", [Attr("class", "y")], 1, false, [])]);
            ResolveForest([Plain("a", [Attr("class", "x")], 1, false, [])], "html",
                          AliasLookup("a", "p.y"), ConstantParse(root)) ==
              [Plain("p", [Attr("class", "x")], 1, false, [])]
  {
    var root := Plain("", [], 1, false, [Plain("p", [Attr("class", "y")], 1, false, [])]);
    var child := Plain("a", [Attr("class", "x")], 1, false, []);
    var lookup := AliasLookup("a", "p.y");
    var parse := ConstantParse(root);
    assert ResolveForest([], "html", lookup, parse) == [];
    assert MergeAttributes([Attr("class", "y")], [Attr("class", "x")]) == [Attr("class", "x")] by {
      assert SetAttribute([Attr("class", "y")], "class", "x") == [Attr("class", "x")];
    }
    var p := root.children[0];
    assert DeepestChild(root.children) == Some(p);
    assert p.(children := p.children + []) == p;
    assert root.children[..0] == [];
    assert Graft(root.children, []) == root.children;
    assert ResolveForest([child], "html", lookup, parse) == Expand(child, root, []) by {
      assert [child][1..] == [];
    }
  }

  /** `c>g` where `c` refers to `a>b`: `g` becomes a child of `b`, not of `a`. */
  lemma GraftUnderDeepest()
    ensures var root := Plain("", [], 1, false, [Plain("a", [], 1, false, [Plain("b", [], 1, false, [])])]);
            var g := Plain("g", [], 1, false, []);
            ResolveForest([Plain("c", [], 1, false, [g])], "html",
                          AliasLookup("c", "a>b"), ConstantParse(root)) ==
              [Plain("a", [], 1, false, [Plain("b", [], 1, false, [g])])]
  {
    var b := Plain("b", [], 1, false, []);
    var root := Plain("", [], 1, false, [Plain("a", [], 1, false, [b])]);
    var g := Plain("g", [], 1, false, []);
    var child := Plain("c", [], 1, false, [g]);
    var lookup := AliasLookup("c", "a>b");
    var parse := ConstantParse(root);
    assert ResolveForest([], "html", lookup, parse) == [];
    assert ResolveForest([g], "html", lookup, parse) == [g] by {
      assert [g][1..] == [];
    }
    var a := root.children[0];
    assert DeepestOf(a) == b;
    assert DeepestChild(root.children) == Some(b);
    assert b.(children := b.children + [g]) == b.(children := [g]);
    assert root.children[..0] == [] && a.children[..0] == [];
    assert ReplaceDeepest(a.children, b.(children := [g])) == [b.(children := [g])];
    assert Graft(root.children, [g]) == [Plain("a", [], 1, false, [Plain("b", [], 1, false, [g])])];
    assert ResolveForest([child], "html", lookup, parse) == Expand(child, root, [g]) by {
      assert [child][1..] == [];
    }
  }

  /** `c>g` where `c` refers to a single childless `span`: `span` itself
      receives `g`. */
  lemma ChildlessReferenceReceivesChildren()
    ensures var root := Plain("", [], 1, false, [Plain("span", [], 1, false, [])]);
            var g := Plain("g", [], 1, false, []);
            ResolveForest([Plain("c", [], 1, false, [g])], "html",
                          AliasLookup("c", "span"), ConstantParse(root)) ==
              [Plain("span", [], 1, false, [g])]
  {
    var span := Plain("span", [], 1, false, []);
    var root := Plain("", [], 1, false, [span]);
    var g := Plain("g", [], 1, false, []);
    var child := Plain("c", [], 1, false, [g]);
    var lookup := AliasLookup("c", "span");
    var parse := ConstantParse(root);
    assert ResolveForest([], "html", lookup, parse) == [];
    assert ResolveForest([g], "html", lookup, parse) == [g] by {
      assert [g][1..] == [];
    }
    assert DeepestChild(root.children) == Some(span);
    assert span.(children := span.children + [g]) == span.(children := [g]);
    assert root.children[..0] == [];
    assert Graft(root.children, [g]) == [Plain("span", [], 1, false, [g])];
    assert ResolveForest([child], "html", lookup, parse) == Expand(child, root, [g]) by {
      assert [child][1..] == [];
    }
  }
}
