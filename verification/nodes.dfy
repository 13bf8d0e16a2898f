/** ExpressionNode: one node of an expression tree, with optional left and
    right children and an optional list of function-call arguments.

    The C++ node holds raw pointers; here a node is an immutable value, an
    absent child is `None`, and a null argument list is `None` (which is not
    the same as `Some([])`, an empty list). */
module Nodes {
  import opened Wrappers
  import opened Strings
  import opened CodeEntity

  /** Field order and defaults follow the full constructor; `Node()` is the
      default constructor: empty value, Undefined kind, no operation, no
      children, no data type, no argument list. */
  datatype Node = Node(
    nodeType: EntityType := Undefined,
    value: string := "",
    left: Option<Node> := None,
    right: Option<Node> := None,
    dataType: string := "",
    operType: OperationType := NoOperation,
    args: ArgList := NoArgs)

  /** The function-call argument list: a null pointer, or a list (possibly
      empty). */
  datatype ArgList = NoArgs | Args(items: seq<Node>)

  /** A leaf holding `value`, as the builder pushes for an operand. */
  function Leaf(nodeType: EntityType, value: string, dataType: string := ""): Node {
    Node(nodeType, value, None, None, dataType)
  }

  // ---------------------------------------------------------------------
  // operator==, operator!= and compareFunctionArgs

  /** Field-by-field comparison: the four plain fields, then both children
      (absent matches only absent), then the argument lists (null matches
      only null; two lists match when they have the same length and match
      pairwise). */
  predicate Equal(a: Node, b: Node)
    decreases a
  {
    a.value == b.value && a.nodeType == b.nodeType &&
    a.operType == b.operType && a.dataType == b.dataType &&
    (a.left.None? == b.left.None?) &&
    (a.left.Some? ==> Equal(a.left.value, b.left.value)) &&
    (a.right.None? == b.right.None?) &&
    (a.right.Some? ==> Equal(a.right.value, b.right.value)) &&
    (a.args.NoArgs? == b.args.NoArgs?) &&
    (a.args.Args? ==>
      |a.args.items| == |b.args.items| &&
      forall i | 0 <= i < |a.args.items| :: Equal(a.args.items[i], b.args.items[i]))
  }

  /** compareFunctionArgs: same length and pairwise equal. */
  predicate ArgsEqual(xs: seq<Node>, ys: seq<Node>) {
    |xs| == |ys| && forall i | 0 <= i < |xs| :: Equal(xs[i], ys[i])
  }

  predicate NotEqual(a: Node, b: Node) {
    !Equal(a, b)
  }

  /** The recursive comparison is exactly equality of the values: it looks
      at every field, and nothing else. */
  lemma {:induction false} EqualIsEquality(a: Node, b: Node)
    ensures Equal(a, b) <==> a == b
    decreases a
  {
    if a.left.Some? && b.left.Some? {
      EqualIsEquality(a.left.value, b.left.value);
    }
    if a.right.Some? && b.right.Some? {
      EqualIsEquality(a.right.value, b.right.value);
    }
    if a.args.Args? && b.args.Args? {
      ArgsEqualIsEquality(a.args.items, b.args.items);
    }
  }

  lemma {:induction false} ArgsEqualIsEquality(xs: seq<Node>, ys: seq<Node>)
    ensures ArgsEqual(xs, ys) <==> xs == ys
    decreases xs
  {
    if |xs| == |ys| {
      forall i | 0 <= i < |xs|
        ensures Equal(xs[i], ys[i]) <==> xs[i] == ys[i]
      {
        EqualIsEquality(xs[i], ys[i]);
      }
      if forall i | 0 <= i < |xs| :: xs[i] == ys[i] {
        assert xs == ys;
      }
    }
  }

  /** Reflexive and symmetric, and `!=` is its negation. */
  lemma EqualReflexiveSymmetric(a: Node, b: Node)
    ensures Equal(a, a)
    ensures Equal(a, b) ==> Equal(b, a)
    ensures NotEqual(a, b) <==> !Equal(a, b)
  {
    EqualIsEquality(a, a);
    EqualIsEquality(a, b);
    EqualIsEquality(b, a);
  }

  /** An absent child equals only an absent child, and a null argument list
      differs from every list, the empty one included. */
  lemma AbsentPartsDiffer(a: Node)
    ensures a.left.Some? ==> NotEqual(a, a.(left := None))
    ensures a.right.Some? ==> NotEqual(a, a.(right := None))
    ensures NotEqual(a.(args := NoArgs), a.(args := Args([])))
  {
  }

  /** compareFunctionArgs as the loop of the source: false at the first
      length mismatch or the first pair that differs. */
  method CompareFunctionArgs(xs: seq<Node>, ys: seq<Node>) returns (r: bool)
    ensures r <==> xs == ys
    ensures r <==> |xs| == |ys| && forall i | 0 <= i < |xs| :: Equal(xs[i], ys[i])
  {
    ArgsEqualIsEquality(xs, ys);
    if |xs| != |ys| {
      return false;
    }
    var i := 0;
    while i < |xs|
      invariant 0 <= i <= |xs|
      invariant forall k | 0 <= k < i :: Equal(xs[k], ys[k])
    {
      EqualIsEquality(xs[i], ys[i]);
      if !Equal(xs[i], ys[i]) {
        return false;
      }
      i := i + 1;
    }
    return true;
  }

  // ---------------------------------------------------------------------
  // Size

  /** The number of nodes in a tree: the node itself, its children's trees
      and its arguments' trees. */
  function Size(n: Node): (k: nat)
    ensures k >= 1
    decreases n, 1, 0
  {
    1 + (if n.left.Some? then Size(n.left.value) else 0) +
    (if n.right.Some? then Size(n.right.value) else 0) +
    (if n.args.Args? then ArgsSize(n, n.args.items) else 0)
  }

  function ArgsSize(n: Node, xs: seq<Node>): nat
    requires forall i | 0 <= i < |xs| :: xs[i] < n
    decreases n, 0, |xs|
  {
    if |xs| == 0 then 0 else Size(xs[0]) + ArgsSize(n, xs[1..])
  }

  /** How many subtrees a node holds directly: its children and its
      arguments. */
  function Taken(n: Node): nat {
    (if n.left.Some? then 1 else 0) + (if n.right.Some? then 1 else 0) +
    (if n.args.Args? then |n.args.items| else 0)
  }

  // ---------------------------------------------------------------------
  // toString

  /** The text a node shows for itself. */
  function Label(n: Node): (r: string)
    ensures |r| > 0
  {
    if |n.value| == 0 then "Unknown" else n.value
  }

  /** The node's label; for a Function node with an argument list, the
      arguments in parentheses separated by ", "; then, when the node has a
      child, " (" left "; " right ")" with an absent side left empty. */
  function ToString(n: Node): string
    decreases n, 2
  {
    if n.left.Some? || n.right.Some? then
      HeadAndArgs(n) + " (" + ChildString(n, n.left) + "; " + ChildString(n, n.right) + ")"
    else HeadAndArgs(n)
  }

  /** The label, with the argument list of a Function node. */
  function HeadAndArgs(n: Node): string
    decreases n, 1
  {
    if n.nodeType == Function && n.args.Args? then
      Label(n) + "(" + Join(ArgStrings(n, n.args.items), ", ") + ")"
    else Label(n)
  }

  function ChildString(n: Node, c: Option<Node>): string
    requires c.Some? ==> c.value < n
    decreases n, 0
  {
    if c.Some? then ToString(c.value) else ""
  }

  function ArgStrings(n: Node, xs: seq<Node>): (r: seq<string>)
    requires forall i | 0 <= i < |xs| :: xs[i] < n
    ensures |r| == |xs|
    decreases n, 0
  {
    seq(|xs|, i requires 0 <= i < |xs| => ToString(xs[i]))
  }

  // ---------------------------------------------------------------------
  // Properties of toString

  /** The nesting depth after reading `s` from depth `d`, or None as soon
      as a ')' finds no open '(' to close. */
  function Depth(s: string, d: nat): Option<nat>
    decreases |s|
  {
    if |s| == 0 then Some(d)
    else if s[0] == '(' then Depth(s[1..], d + 1)
    else if s[0] == ')' then (if d == 0 then None else Depth(s[1..], d - 1))
    else Depth(s[1..], d)
  }

  /** Every ')' closes an earlier '(' and every '(' is closed. */
  predicate Balanced(s: string) {
    Depth(s, 0) == Some(0)
  }

  /** A closing parenthesis before its opening one is not balanced. */
  lemma BalancedRejectsCrossed()
    ensures Balanced("()") && !Balanced(")(") && !Balanced("(")
  {
  }

  /** Reading `x` + `y` reads `x`, then `y` from where `x` left off. */
  lemma {:induction false} DepthConcat(x: string, y: string, d: nat)
    ensures Depth(x + y, d) == if Depth(x, d).Some? then Depth(y, Depth(x, d).value) else None
    decreases |x|
  {
    if |x| == 0 {
      assert x + y == y;
    } else {
      assert (x + y)[0] == x[0];
      assert (x + y)[1..] == x[1..] + y;
      if x[0] == '(' {
        DepthConcat(x[1..], y, d + 1);
      } else if x[0] == ')' {
        if d > 0 {
          DepthConcat(x[1..], y, d - 1);
        }
      } else {
        DepthConcat(x[1..], y, d);
      }
    }
  }

  /** Starting deeper only ends deeper by the same amount. */
  lemma {:induction false} DepthShift(s: string, d: nat, e: nat)
    requires Depth(s, d).Some?
    ensures Depth(s, d + e) == Some(Depth(s, d).value + e)
    decreases |s|
  {
    if |s| > 0 {
      if s[0] == '(' {
        DepthShift(s[1..], d + 1, e);
      } else if s[0] == ')' {
        DepthShift(s[1..], d - 1, e);
      } else {
        DepthShift(s[1..], d, e);
      }
    }
  }

  /** A balanced text read at any depth comes back to that depth. */
  lemma BalancedAt(s: string, d: nat)
    requires Balanced(s)
    ensures Depth(s, d) == Some(d)
  {
    DepthShift(s, 0, d);
  }

  lemma BalancedConcat(x: string, y: string)
    requires Balanced(x) && Balanced(y)
    ensures Balanced(x + y)
  {
    DepthConcat(x, y, 0);
  }

  lemma {:induction false} JoinBalanced(xs: seq<string>, sep: string)
    requires Balanced(sep) && forall i | 0 <= i < |xs| :: Balanced(xs[i])
    ensures Balanced(Join(xs, sep))
    decreases |xs|
  {
    if |xs| > 1 {
      JoinBalanced(xs[1..], sep);
      BalancedConcat(xs[0], sep);
      BalancedConcat(xs[0] + sep, Join(xs[1..], sep));
    }
  }

  /** Every value in the tree has balanced parentheses. */
  predicate AllValuesBalanced(n: Node)
    decreases n
  {
    Balanced(n.value) &&
    (n.left.Some? ==> AllValuesBalanced(n.left.value)) &&
    (n.right.Some? ==> AllValuesBalanced(n.right.value)) &&
    (n.args.Args? ==> forall i | 0 <= i < |n.args.items| :: AllValuesBalanced(n.args.items[i]))
  }

  /** The dump adds its parentheses in matching pairs: when no value in the
      tree carries an unmatched parenthesis, neither does the dump. */
  lemma {:induction false} ToStringBalanced(n: Node)
    requires AllValuesBalanced(n)
    ensures Balanced(ToString(n))
    decreases n
  {
    var head := Label(n);
    assert Balanced(head) by {
      if |n.value| == 0 {
        assert Depth("Unknown", 0) == Some(0);
      }
    }
    var withArgs := head;
    if n.nodeType == Function && n.args.Args? {
      var xs := n.args.items;
      var strs := ArgStrings(n, xs);
      forall i | 0 <= i < |strs|
        ensures Balanced(strs[i])
      {
        ToStringBalanced(xs[i]);
      }
      assert Balanced(", ") by {
        assert Depth(", ", 0) == Some(0);
      }
      JoinBalanced(strs, ", ");
      Wrap(head, Join(strs, ", "), "(", ")");
      withArgs := head + "(" + Join(strs, ", ") + ")";
    }
    if n.left.Some? || n.right.Some? {
      var l := ChildString(n, n.left);
      var r := ChildString(n, n.right);
      assert Balanced(l) by {
        if n.left.Some? {
          ToStringBalanced(n.left.value);
        } else {
          assert Depth("", 0) == Some(0);
        }
      }
      assert Balanced(r) by {
        if n.right.Some? {
          ToStringBalanced(n.right.value);
        } else {
          assert Depth("", 0) == Some(0);
        }
      }
      Pair(withArgs, l, r);
    }
  }

  /** `x` + open + `y` + close is balanced when `x` and `y` are. */
  lemma Wrap(x: string, y: string, lp: string, rp: string)
    requires lp == "(" && rp == ")" && Balanced(x) && Balanced(y)
    ensures Balanced(x + lp + y + rp)
  {
    assert Depth(lp, 0) == Some(1);
    assert Depth(rp, 1) == Some(0);
    BalancedAt(y, 1);
    DepthConcat(x, lp, 0);
    DepthConcat(x + lp, y, 0);
    DepthConcat(x + lp + y, rp, 0);
  }

  /** `x` + " (" + `l` + "; " + `r` + ")" is balanced when the parts are. */
  lemma Pair(x: string, l: string, r: string)
    requires Balanced(x) && Balanced(l) && Balanced(r)
    ensures Balanced(x + " (" + l + "; " + r + ")")
  {
    var a, b, c := " (", "; ", ")";
    assert Depth(a, 0) == Some(1);
    assert Depth(b, 1) == Some(1);
    assert Depth(c, 1) == Some(0);
    BalancedAt(l, 1);
    BalancedAt(r, 1);
    DepthConcat(x, a, 0);
    DepthConcat(x + a, l, 0);
    DepthConcat(x + a + l, b, 0);
    DepthConcat(x + a + l + b, r, 0);
    DepthConcat(x + a + l + b + r, c, 0);
  }

  /** The dump of a node starts with its label; it is the label alone
      exactly when the node has no child and no argument list to show. */
  lemma ToStringStartsWithLabel(n: Node)
    ensures |ToString(n)| >= |Label(n)| && ToString(n)[..|Label(n)|] == Label(n)
    ensures ToString(n) == Label(n) <==>
      n.left.None? && n.right.None? && !(n.nodeType == Function && n.args.Args?)
  {
    var head := Label(n);
    var w := HeadAndArgs(n);
    if n.nodeType == Function && n.args.Args? {
      var rest := "(" + Join(ArgStrings(n, n.args.items), ", ") + ")";
      assert w == head + rest;
      PrefixOfConcat(head, rest);
    }
    assert |w| >= |head| && w[..|head|] == head;
    if n.left.Some? || n.right.Some? {
      var tail := " (" + ChildString(n, n.left) + "; " + ChildString(n, n.right) + ")";
      assert ToString(n) == w + tail;
      PrefixOfConcat(w, tail);
      assert ToString(n)[..|head|] == w[..|head|];
    }
  }

  lemma PrefixOfConcat(x: string, y: string)
    ensures |x + y| == |x| + |y| && (x + y)[..|x|] == x
  {
  }
}
