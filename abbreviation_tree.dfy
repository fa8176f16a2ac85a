/**
  The abbreviation tree that the resource matcher rewrites, and small
  specifications of the `AbbreviationNode` helpers it calls
  (`attribute`, `findAll`, `deepestChild`, `addChild`, `replace`).
  Nodes are values: an update of a node in place is modelled as building
  the updated node and writing it back where the old one stood.
 */
module AbbreviationTree {

  datatype Option<T> = None | Some(value: T)

  /** An output resource as the element factory describes it. */
  datatype Element =
    | Snippet(text: string)     // elements.create('snippet', text)
    | Reference(data: string)   // an abbreviation to parse and inline
    | Other(descriptor: string) // any other descriptor, opaque here

  predicate IsReference(r: Option<Element>) {
    r.Some? && r.value.Reference?
  }

  datatype Attr = Attr(name: string, value: string)

  datatype Node = Node(
    name: string,
    attributes: seq<Attr>,
    repeatCount: int,
    hasImplicitRepeat: bool,
    resource: Option<Element>,  // the node's 'resource' data
    children: seq<Node>)

  /** Everything a node holds except its children, plus how many it has. */
  datatype Label = Label(
    name: string,
    attributes: seq<Attr>,
    repeatCount: int,
    hasImplicitRepeat: bool,
    resource: Option<Element>,
    arity: nat)

  function LabelOf(n: Node): Label {
    Label(n.name, n.attributes, n.repeatCount, n.hasImplicitRepeat, n.resource, |n.children|)
  }

  /** The labels of a forest in depth-first pre-order; with the arities
      they determine the forest, so they serve to compare forests node by node. */
  function Labels(f: seq<Node>): seq<Label> {
    if f == [] then [] else [LabelOf(f[0])] + Labels(f[0].children) + Labels(f[1..])
  }

  lemma LabelsSingle(n: Node)
    ensures Labels([n]) == [LabelOf(n)] + Labels(n.children)
  {
    assert [n][1..] == [];
  }

  lemma {:induction false} LabelsAppend(a: seq<Node>, b: seq<Node>)
    ensures Labels(a + b) == Labels(a) + Labels(b)
  {
    if a != [] {
      assert (a + b)[0] == a[0];
      assert (a + b)[1..] == a[1..] + b;
      LabelsAppend(a[1..], b);
    } else {
      assert a + b == b;
    }
  }

  // ---------------------------------------------------------------------
  // Attributes: `attributeList()` and `attribute(name, value)`

  /** The value of the first attribute called `name`, as `attribute(name)` reads it. */
  function AttrValue(attrs: seq<Attr>, name: string): Option<string> {
    if attrs == [] then None
    else if attrs[0].name == name then Some(attrs[0].value)
    else AttrValue(attrs[1..], name)
  }

  function Names(attrs: seq<Attr>): seq<string> {
    if attrs == [] then [] else [attrs[0].name] + Names(attrs[1..])
  }

  /** `node.attribute(name, value)`: overwrite the first attribute of that
      name where it stands, or append a new one at the end. */
  function SetAttribute(attrs: seq<Attr>, name: string, value: string): (r: seq<Attr>)
    ensures AttrValue(r, name) == Some(value)
    ensures forall other :: other != name ==> AttrValue(r, other) == AttrValue(attrs, other)
    ensures AttrValue(attrs, name).Some? ==> Names(r) == Names(attrs)
    ensures AttrValue(attrs, name).None? ==> r == attrs + [Attr(name, value)]
  {
    if attrs == [] then [Attr(name, value)]
    else if attrs[0].name == name then [Attr(name, value)] + attrs[1..]
    else
      assert (attrs + [Attr(name, value)])[1..] == attrs[1..] + [Attr(name, value)];
      [attrs[0]] + SetAttribute(attrs[1..], name, value)
  }

  /** The value of the LAST attribute called `name` in `attrs`: the one
      that survives when `attrs` is written attribute by attribute. */
  function LastValue(attrs: seq<Attr>, name: string): Option<string> {
    if attrs == [] then None
    else
      var rest := LastValue(attrs[1..], name);
      if rest.Some? then rest
      else if attrs[0].name == name then Some(attrs[0].value)
      else None
  }

  /** Writing every attribute of `source`, in order, onto `target`. */
  function MergeAttributes(target: seq<Attr>, source: seq<Attr>): seq<Attr>
    decreases |source|
  {
    if source == [] then target
    else MergeAttributes(SetAttribute(target, source[0].name, source[0].value), source[1..])
  }

  /** After the merge, a name that `source` has carries `source`'s (last)
      value; every other name keeps the value it had in `target`. */
  lemma {:induction false} MergeAttributesValue(target: seq<Attr>, source: seq<Attr>, name: string)
    ensures AttrValue(MergeAttributes(target, source), name) ==
            if LastValue(source, name).Some? then LastValue(source, name) else AttrValue(target, name)
    decreases |source|
  {
    if source != [] {
      MergeAttributesValue(SetAttribute(target, source[0].name, source[0].value), source[1..], name);
    }
  }

  /** A name of `source` is defined after the merge whatever `target` held. */
  lemma {:induction false} LastValueOfMember(source: seq<Attr>, i: nat)
    requires i < |source|
    ensures LastValue(source, source[i].name).Some?
  {
    if i > 0 {
      LastValueOfMember(source[1..], i - 1);
      assert source[1..][i - 1] == source[i];
    }
  }

  // ---------------------------------------------------------------------
  // Implicit repeats: `findAll(node => node.hasImplicitRepeat)` and the
  // loop that hands each found node the caller's repeat count

  function Consume(l: Label, count: int): Label {
    if l.hasImplicitRepeat then l.(repeatCount := count, hasImplicitRepeat := false) else l
  }

  function ConsumeAll(ls: seq<Label>, count: int): (r: seq<Label>)
    ensures |r| == |ls|
  {
    if ls == [] then [] else [Consume(ls[0], count)] + ConsumeAll(ls[1..], count)
  }

  lemma {:induction false} ConsumeAllAppend(a: seq<Label>, b: seq<Label>, count: int)
    ensures ConsumeAll(a + b, count) == ConsumeAll(a, count) + ConsumeAll(b, count)
  {
    if a != [] {
      assert (a + b)[0] == a[0];
      assert (a + b)[1..] == a[1..] + b;
      ConsumeAllAppend(a[1..], b, count);
    } else {
      assert a + b == b;
    }
  }

  lemma {:induction false} ConsumeAllAt(ls: seq<Label>, count: int, i: nat)
    requires i < |ls|
    ensures ConsumeAll(ls, count)[i] == Consume(ls[i], count)
  {
    if i > 0 {
      ConsumeAllAt(ls[1..], count, i - 1);
    }
  }

  /** Every node of the forest (at any depth) that has an implicit repeat
      takes `count` and loses the mark; the forest is otherwise kept. */
  function TransferRepeat(f: seq<Node>, count: int): seq<Node> {
    if f == [] then []
    else
      var n := f[0];
      var kids := TransferRepeat(n.children, count);
      var n' := if n.hasImplicitRepeat
                then n.(repeatCount := count, hasImplicitRepeat := false, children := kids)
                else n.(children := kids);
      [n'] + TransferRepeat(f[1..], count)
  }

  lemma TransferRepeatHead(f: seq<Node>, count: int)
    requires f != []
    ensures TransferRepeat(f, count) == [TransferRepeat(f, count)[0]] + TransferRepeat(f[1..], count)
    ensures TransferRepeat(f, count)[0].children == TransferRepeat(f[0].children, count)
    ensures LabelOf(TransferRepeat(f, count)[0]) == Consume(LabelOf(f[0]), count)
  {
    TransferRepeatLength(f[0].children, count);
  }

  lemma {:induction false} TransferRepeatLabels(f: seq<Node>, count: int)
    ensures Labels(TransferRepeat(f, count)) == ConsumeAll(Labels(f), count)
  {
    if f != [] {
      var n := f[0];
      var rest := TransferRepeat(f[1..], count);
      var n' := TransferRepeat(f, count)[0];
      TransferRepeatHead(f, count);
      var a := Labels(n.children);
      var b := Labels(f[1..]);
      assert Labels([n'] + rest) == [Consume(LabelOf(n), count)] + ConsumeAll(a, count) + ConsumeAll(b, count) by {
        TransferRepeatLabels(n.children, count);
        TransferRepeatLabels(f[1..], count);
        LabelsAppend([n'], rest);
        LabelsSingle(n');
      }
      assert ConsumeAll(Labels(f), count) == [Consume(LabelOf(n), count)] + ConsumeAll(a, count) + ConsumeAll(b, count) by {
        ConsumeAllAppend(a, b, count);
        assert Labels(f) == [LabelOf(n)] + (a + b);
        assert ([LabelOf(n)] + (a + b))[1..] == a + b;
      }
    }
  }

  lemma {:induction false} TransferRepeatLength(f: seq<Node>, count: int)
    ensures |TransferRepeat(f, count)| == |f|
  {
    if f != [] {
      TransferRepeatLength(f[1..], count);
    }
  }

  /** The helper's promise, node by node in pre-order: a node that had an
      implicit repeat now repeats `count` times and is no longer marked; every
      other node, and every other field, is as before. */
  lemma TransferRepeatSpec(f: seq<Node>, count: int)
    ensures |Labels(TransferRepeat(f, count))| == |Labels(f)|
    ensures forall i :: 0 <= i < |Labels(f)| && Labels(f)[i].hasImplicitRepeat ==>
      Labels(TransferRepeat(f, count))[i] == Labels(f)[i].(repeatCount := count, hasImplicitRepeat := false)
    ensures forall i :: 0 <= i < |Labels(f)| && !Labels(f)[i].hasImplicitRepeat ==>
      Labels(TransferRepeat(f, count))[i] == Labels(f)[i]
  {
    TransferRepeatLabels(f, count);
    forall i | 0 <= i < |Labels(f)| ensures Labels(TransferRepeat(f, count))[i] == Consume(Labels(f)[i], count) {
      ConsumeAllAt(Labels(f), count, i);
    }
  }

  /** The same, for the top-level nodes by position. */
  lemma {:induction false} TransferRepeatTop(f: seq<Node>, count: int, i: nat)
    requires i < |f|
    ensures |TransferRepeat(f, count)| == |f|
    ensures LabelOf(TransferRepeat(f, count)[i]) == Consume(LabelOf(f[i]), count)
  {
    TransferRepeatLength(f, count);
    TransferRepeatHead(f, count);
    if i > 0 {
      TransferRepeatTop(f[1..], count, i - 1);
    }
  }

  // ---------------------------------------------------------------------
  // The deepest child: `deepestChild()` follows the last child down to a leaf

  function DeepestOf(n: Node): Node {
    if n.children == [] then n else DeepestOf(n.children[|n.children| - 1])
  }

  /** `subtree.deepestChild()` for a subtree whose top-level nodes are `f`:
      nothing when there are none. */
  function DeepestChild(f: seq<Node>): (d: Option<Node>)
    ensures d.None? <==> f == []
  {
    if f == [] then None else Some(DeepestOf(f[|f| - 1]))
  }

  /** `f` with its deepest child replaced by `d`. */
  function ReplaceDeepest(f: seq<Node>, d: Node): (r: seq<Node>)
    requires f != []
    ensures |r| == |f| && r[..|f| - 1] == f[..|f| - 1]
  {
    var k := |f| - 1;
    var last := f[k];
    f[..k] + [if last.children == [] then d else last.(children := ReplaceDeepest(last.children, d))]
  }

  /** The deepest child is a leaf and is the last node of the forest in pre-order. */
  lemma {:induction false} DeepestIsLastLeaf(f: seq<Node>)
    requires f != []
    ensures DeepestChild(f).value.children == []
    ensures |Labels(f)| > 0 && Labels(f)[|Labels(f)| - 1] == LabelOf(DeepestChild(f).value)
  {
    var k := |f| - 1;
    var last := f[k];
    assert f == f[..k] + [last];
    LabelsAppend(f[..k], [last]);
    LabelsSingle(last);
    if last.children != [] {
      DeepestIsLastLeaf(last.children);
    }
  }

  /** Replacing the deepest child changes only the last node in pre-order. */
  lemma {:induction false} ReplaceDeepestLabels(f: seq<Node>, d: Node)
    requires f != []
    ensures |Labels(f)| > 0
    ensures Labels(ReplaceDeepest(f, d)) == Labels(f)[..|Labels(f)| - 1] + Labels([d])
  {
    var k := |f| - 1;
    var last := f[k];
    var last' := if last.children == [] then d else last.(children := ReplaceDeepest(last.children, d));
    assert f == f[..k] + [last];
    assert ReplaceDeepest(f, d) == f[..k] + [last'];
    LabelsAppend(f[..k], [last]);
    LabelsAppend(f[..k], [last']);
    LabelsSingle(last);
    if last.children == [] {
      assert Labels([last]) == [LabelOf(last)];
    } else {
      ReplaceDeepestLabels(last.children, d);
      LabelsSingle(last');
      assert Labels([last']) == [LabelOf(last)] + Labels(last.children)[..|Labels(last.children)| - 1] + Labels([d]);
    }
  }

  /** `addChild` on the deepest child for each of `cs`, in order. */
  function Graft(f: seq<Node>, cs: seq<Node>): seq<Node> {
    match DeepestChild(f)
    case None => f
    case Some(d) => ReplaceDeepest(f, d.(children := d.children + cs))
  }

  /** With a deepest child, the grafted forest is the old one in pre-order
      with `cs` following the deepest child, which now has exactly `cs` as
      children; without one, the forest is empty and `cs` is dropped. */
  lemma GraftSpec(f: seq<Node>, cs: seq<Node>)
    ensures |Graft(f, cs)| == |f|
    ensures f == [] ==> Graft(f, cs) == []
    ensures f != [] ==>
              |Labels(f)| > 0 &&
              Labels(Graft(f, cs)) ==
                Labels(f)[..|Labels(f)| - 1] + [Labels(f)[|Labels(f)| - 1].(arity := |cs|)] + Labels(cs)
  {
    if f != [] {
      var d := DeepestChild(f).value;
      DeepestIsLastLeaf(f);
      var d' := d.(children := d.children + cs);
      assert d.children + cs == cs;
      ReplaceDeepestLabels(f, d');
      LabelsSingle(d');
      assert LabelOf(d') == LabelOf(d).(arity := |cs|);
    }
  }

  /** A top-level node keeps everything but its number of children. */
  lemma GraftTop(f: seq<Node>, cs: seq<Node>, i: nat)
    requires i < |f|
    ensures |Graft(f, cs)| == |f|
    ensures LabelOf(Graft(f, cs)[i]).(arity := 0) == LabelOf(f[i]).(arity := 0)
  {
    if i == |f| - 1 {
      var last := f[i];
      if last.children == [] {
        assert DeepestChild(f).value == last;
      }
    } else {
      assert Graft(f, cs)[..|f| - 1][i] == f[..|f| - 1][i];
    }
  }

  predicate EndsWith<T(==)>(s: seq<T>, t: seq<T>) {
    |t| <= |s| && s[|s| - |t|..] == t
  }

  /** The grafted nodes are the last ones, in pre-order, below the last
      top-level node, in their original order. */
  lemma GraftLastChildren(f: seq<Node>, cs: seq<Node>)
    requires f != []
    ensures |Graft(f, cs)| == |f|
    ensures EndsWith(Labels(Graft(f, cs)[|f| - 1].children), Labels(cs))
  {
    var k := |f| - 1;
    var last := f[k];
    var d := DeepestChild(f).value;
    var d' := d.(children := d.children + cs);
    DeepestIsLastLeaf(f);
    assert d.children + cs == cs;
    if last.children == [] {
      assert d == last;
      assert Graft(f, cs)[k] == d';
    } else {
      assert Graft(f, cs)[k].children == ReplaceDeepest(last.children, d');
      ReplaceDeepestLabels(last.children, d');
      LabelsSingle(d');
      var x := Labels(last.children)[..|Labels(last.children)| - 1] + [LabelOf(d')];
      assert Labels(Graft(f, cs)[k].children) == x + Labels(cs);
    }
  }

  // ---------------------------------------------------------------------
  // Attribute inheritance onto the top-level nodes

  /** Each of `f` (the top level only) with every attribute of `attrs` written onto it. */
  function Inherit(f: seq<Node>, attrs: seq<Attr>): seq<Node> {
    seq(|f|, i requires 0 <= i < |f| => f[i].(attributes := MergeAttributes(f[i].attributes, attrs)))
  }

  /** What `Inherit` promises of every top-level node: caller attributes
      win, others stay, and nothing else (children included) changes. */
  lemma InheritSpec(f: seq<Node>, attrs: seq<Attr>, i: nat, name: string)
    requires i < |f|
    ensures |Inherit(f, attrs)| == |f|
    ensures Inherit(f, attrs)[i].children == f[i].children
    ensures LabelOf(Inherit(f, attrs)[i]).(attributes := f[i].attributes) == LabelOf(f[i])
    ensures AttrValue(Inherit(f, attrs)[i].attributes, name) ==
            if LastValue(attrs, name).Some? then LastValue(attrs, name) else AttrValue(f[i].attributes, name)
  {
    MergeAttributesValue(f[i].attributes, attrs, name);
  }

  function StripAttributes(ls: seq<Label>): (r: seq<Label>)
    ensures |r| == |ls|
  {
    if ls == [] then [] else [ls[0].(attributes := [])] + StripAttributes(ls[1..])
  }

  lemma {:induction false} StripAttributesAppend(a: seq<Label>, b: seq<Label>)
    ensures StripAttributes(a + b) == StripAttributes(a) + StripAttributes(b)
  {
    if a != [] {
      assert (a + b)[0] == a[0];
      assert (a + b)[1..] == a[1..] + b;
      StripAttributesAppend(a[1..], b);
    } else {
      assert a + b == b;
    }
  }

  lemma {:induction false} StripAttributesAt(ls: seq<Label>, i: nat)
    requires i < |ls|
    ensures StripAttributes(ls)[i] == ls[i].(attributes := [])
  {
    if i > 0 {
      StripAttributesAt(ls[1..], i - 1);
    }
  }

  /** Inheritance changes attributes only: in pre-order, every node of the
      forest keeps everything else. */
  lemma {:induction false} InheritLabels(f: seq<Node>, attrs: seq<Attr>)
    ensures StripAttributes(Labels(Inherit(f, attrs))) == StripAttributes(Labels(f))
  {
    if f != [] {
      var g := Inherit(f, attrs);
      var rest := Inherit(f[1..], attrs);
      assert g == [g[0]] + rest;
      InheritLabels(f[1..], attrs);
      LabelsAppend([g[0]], rest);
      LabelsSingle(g[0]);
      var a := Labels(f[0].children);
      assert Labels(g) == [LabelOf(g[0])] + (a + Labels(rest));
      assert Labels(f) == [LabelOf(f[0])] + (a + Labels(f[1..]));
      StripAttributesAppend(a, Labels(rest));
      StripAttributesAppend(a, Labels(f[1..]));
      assert ([LabelOf(g[0])] + (a + Labels(rest)))[1..] == a + Labels(rest);
      assert ([LabelOf(f[0])] + (a + Labels(f[1..])))[1..] == a + Labels(f[1..]);
    }
  }

  // ---------------------------------------------------------------------
  // `child.replace(items)`: splice `items` in place of the node at `pos`

  function Splice(live: seq<Node>, pos: nat, items: seq<Node>): (r: seq<Node>)
    requires pos < |live|
    ensures |r| == |live| - 1 + |items|
    ensures r[..pos] == live[..pos]
    ensures r[pos..pos + |items|] == items
    ensures r[pos + |items|..] == live[pos + 1..]
  {
    live[..pos] + items + live[pos + 1..]
  }

  // ---------------------------------------------------------------------
  // Reference-free forests

  /** No node of the forest, at any depth, carries a reference resource. */
  predicate NoReference(f: seq<Node>) {
    forall l :: l in Labels(f) ==> !IsReference(l.resource)
  }

  lemma NoReferenceTransfer(f: seq<Node>, count: int)
    requires NoReference(f)
    ensures NoReference(TransferRepeat(f, count))
  {
    TransferRepeatLabels(f, count);
    var ls := Labels(f);
    forall l | l in Labels(TransferRepeat(f, count)) ensures !IsReference(l.resource) {
      var i :| 0 <= i < |ConsumeAll(ls, count)| && ConsumeAll(ls, count)[i] == l;
      ConsumeAllAt(ls, count, i);
      assert ls[i] in ls;
    }
  }

  lemma NoReferenceGraft(f: seq<Node>, cs: seq<Node>)
    requires NoReference(f) && NoReference(cs)
    ensures NoReference(Graft(f, cs))
  {
    GraftSpec(f, cs);
    if f != [] {
      var ls := Labels(f);
      var k := |ls| - 1;
      assert ls == ls[..k] + [ls[k]];
      forall l | l in Labels(Graft(f, cs)) ensures !IsReference(l.resource) {
        if l in ls[..k] {
          assert l in ls;
        } else if l == ls[k].(arity := |cs|) {
          assert ls[k] in ls;
        } else {
          assert l in Labels(cs);
        }
      }
    }
  }

  lemma {:induction false} NoReferenceInherit(f: seq<Node>, attrs: seq<Attr>)
    requires NoReference(f)
    ensures NoReference(Inherit(f, attrs))
  {
    if f != [] {
      var g := Inherit(f, attrs);
      assert g == [g[0]] + Inherit(f[1..], attrs);
      assert Labels(f) == [LabelOf(f[0])] + Labels(f[0].children) + Labels(f[1..]);
      assert LabelOf(f[0]) in Labels(f);
      assert NoReference(f[1..]) by {
        forall l | l in Labels(f[1..]) ensures !IsReference(l.resource) { assert l in Labels(f); }
      }
      NoReferenceInherit(f[1..], attrs);
      LabelsAppend([g[0]], Inherit(f[1..], attrs));
      LabelsSingle(g[0]);
      forall l | l in Labels(g) ensures !IsReference(l.resource) {
        if l in Labels(f[0].children) {
          assert l in Labels(f);
        }
      }
    }
  }
}
