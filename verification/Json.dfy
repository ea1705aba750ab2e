/** JSON values and the two explicit-stack shape checks. */
module Json {
  import opened Bytes
  import opened Ordering

  /** A printed number: an integer, or a float carried with its text of at most 64 bytes. */
  type FloatText = s: string | |s| <= 64 && forall i :: 0 <= i < |s| ==> s[i] as int < 0x80 witness "0"

  type JsonInteger = n: int | -0x8000_0000_0000_0000 <= n < 0x1_0000_0000_0000_0000

  datatype Number = Integer(whole: JsonInteger) | Float(approximate: real, text: FloatText)

  datatype Value =
    | Null
    | Bool(bit: bool)
    | Num(number: Number)
    | Str(text: string)
    | Array(items: seq<Value>)
    | Object(keys: seq<string>, values: seq<Value>)

  function Children(value: Value): seq<Value> {
    match value
    case Array(items) => items
    case Object(_, values) => values
    case _ => []
  }

  /** How many values a value consists of, itself included. */
  function Nodes(value: Value): (n: nat)
    ensures n >= 1
    decreases value, 1
  {
    1 + match value
        case Array(items) => NodesOfAll(items)
        case Object(_, values) => NodesOfAll(values)
        case _ => 0
  }

  function NodesOfAll(values: seq<Value>): nat
    decreases values, 0
  {
    if values == [] then 0 else Nodes(values[0]) + NodesOfAll(values[1..])
  }

  /** How many values stand inside one another at most; a scalar has depth one. */
  function Depth(value: Value): (d: nat)
    ensures d >= 1
    decreases value, 1
  {
    1 + match value
        case Array(items) => DepthOfAll(items)
        case Object(_, values) => DepthOfAll(values)
        case _ => 0
  }

  function DepthOfAll(values: seq<Value>): nat
    decreases values, 0
  {
    if values == [] then 0
    else if Depth(values[0]) > DepthOfAll(values[1..]) then Depth(values[0])
    else DepthOfAll(values[1..])
  }

  // ----- Depth and nodes by their paths

  /** The value reached by going into the given children one after another. */
  function At(value: Value, path: seq<nat>): Option<Value>
    decreases |path|
  {
    if path == [] then Some(value)
    else
      match value
      case Array(items) => if path[0] < |items| then At(items[path[0]], path[1..]) else None
      case Object(_, values) => if path[0] < |values| then At(values[path[0]], path[1..]) else None
      case _ => None
  }

  /** A value is within a depth exactly if every path into it is shorter than that depth. */
  lemma {:induction false} DepthExactlyWhen(value: Value, depth: nat)
    ensures Depth(value) <= depth <==> depth > 0 && forall path :: At(value, path).Some? ==> |path| < depth
    decreases value
  {
    var children := Children(value);
    if depth > 0 {
      DepthOfAllBounds(children, depth - 1);
      forall i | 0 <= i < |children|
        ensures Depth(children[i]) <= depth - 1 <==>
          depth - 1 > 0 && forall path :: At(children[i], path).Some? ==> |path| < depth - 1
      {
        DepthExactlyWhen(children[i], depth - 1);
      }
      hide Depth;
      if forall i :: 0 <= i < |children| ==> Depth(children[i]) <= depth - 1 {
        forall path | At(value, path).Some?
          ensures |path| < depth
        {
          if path != [] {
            assert At(children[path[0]], path[1..]).Some?;
          }
        }
      } else {
        var i :| 0 <= i < |children| && Depth(children[i]) > depth - 1;
        if depth == 1 {
          assert At(value, [i]).Some? by {
            assert [i][1..] == [];
          }
        } else {
          var path :| At(children[i], path).Some? && |path| >= depth - 1;
          assert ([i] + path)[1..] == path;
          assert At(value, [i] + path).Some?;
        }
      }
    }
  }

  /** All paths into a value, itself first, each child's paths behind those of the children before it. */
  function Paths(value: Value): seq<seq<nat>>
    decreases value, 1
  {
    match value
    case Array(items) => [[]] + PathsOfAll(items, 0)
    case Object(_, values) => [[]] + PathsOfAll(values, 0)
    case _ => [[]]
  }

  function PathsOfAll(values: seq<Value>, first: nat): seq<seq<nat>>
    decreases values, 0
  {
    if values == [] then []
    else Behind(first, Paths(values[0])) + PathsOfAll(values[1..], first + 1)
  }

  function Behind(i: nat, paths: seq<seq<nat>>): (r: seq<seq<nat>>)
    ensures |r| == |paths|
  {
    seq(|paths|, k requires 0 <= k < |paths| => [i] + paths[k])
  }

  lemma {:induction false} PathsCount(value: Value)
    ensures |Paths(value)| == Nodes(value)
    decreases value, 1
  {
    match value {
      case Array(items) => PathsOfAllCount(items, 0);
      case Object(_, values) => PathsOfAllCount(values, 0);
      case _ =>
    }
  }

  lemma {:induction false} PathsOfAllCount(values: seq<Value>, first: nat)
    ensures |PathsOfAll(values, first)| == NodesOfAll(values)
    decreases values, 0
  {
    if values != [] {
      PathsCount(values[0]);
      PathsOfAllCount(values[1..], first + 1);
    }
  }

  lemma {:induction false} PathsReach(value: Value, path: seq<nat>)
    ensures path in Paths(value) <==> At(value, path).Some?
    decreases value, 1
  {
    match value {
      case Array(items) => PathsOfAllReach(items, 0, path);
      case Object(_, values) => PathsOfAllReach(values, 0, path);
      case _ =>
    }
  }

  lemma {:induction false} PathsOfAllReach(values: seq<Value>, first: nat, path: seq<nat>)
    ensures path in PathsOfAll(values, first) <==>
      path != [] && first <= path[0] < first + |values| && At(values[path[0] - first], path[1..]).Some?
    decreases values, 0
  {
    if values != [] {
      var head, rest := Paths(values[0]), PathsOfAll(values[1..], first + 1);
      assert PathsOfAll(values, first) == Behind(first, head) + rest;
      BehindHolds(first, head, path);
      PathsOfAllReach(values[1..], first + 1, path);
      if path != [] {
        PathsReach(values[0], path[1..]);
      }
      hide Paths, PathsOfAll, At, Behind;
      assert path in Behind(first, head) + rest <==> path in Behind(first, head) || path in rest;
      assert path != [] && first < path[0] < first + |values| ==>
        values[1..][path[0] - first - 1] == values[path[0] - first];
    }
  }

  lemma BehindHolds(i: nat, paths: seq<seq<nat>>, path: seq<nat>)
    ensures path in Behind(i, paths) <==> path != [] && path[0] == i && path[1..] in paths
  {
    if path in Behind(i, paths) {
      var k :| 0 <= k < |paths| && Behind(i, paths)[k] == path;
      assert path[1..] == paths[k];
    }
    if path != [] && path[0] == i && path[1..] in paths {
      var k :| 0 <= k < |paths| && paths[k] == path[1..];
      assert path == [i] + paths[k];
      assert Behind(i, paths)[k] == path;
    }
  }

  lemma {:induction false} PathsDiffer(value: Value)
    ensures Distinct(Paths(value))
    decreases value, 1
  {
    match value {
      case Array(items) => PathsOfAllDiffer(items, 0); SelfIsApart(items);
      case Object(_, values) => PathsOfAllDiffer(values, 0); SelfIsApart(values);
      case _ =>
    }
  }

  lemma SelfIsApart(values: seq<Value>)
    requires Distinct(PathsOfAll(values, 0))
    ensures Distinct([[]] + PathsOfAll(values, 0))
  {
    forall path | path in PathsOfAll(values, 0)
      ensures path != []
    {
      PathsOfAllReach(values, 0, path);
    }
    DistinctJoin([[]], PathsOfAll(values, 0));
  }

  lemma {:induction false} PathsOfAllDiffer(values: seq<Value>, first: nat)
    ensures Distinct(PathsOfAll(values, first))
    decreases values, 0
  {
    if values != [] {
      var head, rest := Paths(values[0]), PathsOfAll(values[1..], first + 1);
      PathsDiffer(values[0]);
      PathsOfAllDiffer(values[1..], first + 1);
      forall path | path in rest
        ensures path !in Behind(first, head)
      {
        PathsOfAllReach(values[1..], first + 1, path);
        BehindHolds(first, head, path);
      }
      hide Paths;
      forall j, k | 0 <= j < k < |head|
        ensures Behind(first, head)[j] != Behind(first, head)[k]
      {
        assert Behind(first, head)[j][1..] == head[j] && Behind(first, head)[k][1..] == head[k];
      }
      DistinctJoin(Behind(first, head), rest);
    }
  }

  lemma DistinctJoin<T>(a: seq<T>, b: seq<T>)
    requires Distinct(a) && Distinct(b) && forall x :: x in b ==> x !in a
    ensures Distinct(a + b)
  {
    forall i, j | 0 <= i < j < |a + b|
      ensures (a + b)[i] != (a + b)[j]
    {
      if i < |a| <= j {
        assert (a + b)[j] == b[j - |a|] && b[j - |a|] in b && a[i] in a;
      }
    }
  }

  /** The node count is the number of different paths into a value, the empty one included. */
  lemma NodesCountPaths(value: Value)
    ensures |Paths(value)| == Nodes(value)
    ensures forall i, j :: 0 <= i < j < |Paths(value)| ==> Paths(value)[i] != Paths(value)[j]
    ensures forall path :: path in Paths(value) <==> At(value, path).Some?
  {
    PathsCount(value);
    PathsDiffer(value);
    forall path
      ensures path in Paths(value) <==> At(value, path).Some?
    {
      PathsReach(value, path);
    }
  }

  // ----- Work left on the stack

  datatype Frame = Frame(value: Value, depth: nat)

  function Frames(values: seq<Value>, depth: nat): (r: seq<Frame>)
    ensures |r| == |values|
  {
    seq(|values|, i requires 0 <= i < |values| => Frame(values[i], depth))
  }

  function StackNodes(stack: seq<Frame>): nat {
    if stack == [] then 0
    else Nodes(stack[|stack| - 1].value) + StackNodes(stack[..|stack| - 1])
  }

  /** No value on the stack reaches below `maxDepth`. */
  ghost predicate StackFits(stack: seq<Frame>, maxDepth: nat) {
    forall i :: 0 <= i < |stack| ==> stack[i].depth + Depth(stack[i].value) <= maxDepth + 1
  }

  lemma {:induction false} StackNodesAppend(a: seq<Frame>, b: seq<Frame>)
    ensures StackNodes(a + b) == StackNodes(a) + StackNodes(b)
    decreases |b|
  {
    if b == [] {
      assert a + b == a;
    } else {
      assert (a + b)[..|a + b| - 1] == a + b[..|b| - 1];
      StackNodesAppend(a, b[..|b| - 1]);
    }
  }

  lemma {:induction false} FramesNodes(values: seq<Value>, depth: nat)
    ensures StackNodes(Frames(values, depth)) == NodesOfAll(values)
  {
    if values != [] {
      FramesNodes(values[1..], depth);
      var first := [Frame(values[0], depth)];
      assert Frames(values, depth) == first + Frames(values[1..], depth);
      StackNodesAppend(first, Frames(values[1..], depth));
      assert first[..0] == [];
    }
  }

  lemma {:induction false} DepthOfAllBounds(values: seq<Value>, bound: nat)
    ensures DepthOfAll(values) <= bound <==> forall i :: 0 <= i < |values| ==> Depth(values[i]) <= bound
  {
    if values != [] {
      DepthOfAllBounds(values[1..], bound);
      assert forall i :: 0 < i < |values| ==> values[i] == values[1..][i - 1];
      if forall i :: 0 <= i < |values| ==> Depth(values[i]) <= bound {
        assert forall i :: 0 <= i < |values[1..]| ==> values[1..][i] == values[i + 1];
      }
    }
  }

  /** Replacing the popped value by its children keeps the nodes and the depths that are left. */
  lemma Expand(stack: seq<Frame>, top: Frame, maxDepth: nat)
    requires top.depth <= maxDepth
    ensures var next := stack + Frames(Children(top.value), top.depth + 1);
      && StackNodes(stack + [top]) == 1 + StackNodes(next)
      && (StackFits(stack + [top], maxDepth) <==> StackFits(next, maxDepth))
  {
    var children := Children(top.value);
    var frames := Frames(children, top.depth + 1);
    StackNodesAppend(stack, frames);
    FramesNodes(children, top.depth + 1);
    assert (stack + [top])[..|stack|] == stack;
    DepthOfAllBounds(children, maxDepth - top.depth);
    assert Depth(top.value) == 1 + DepthOfAll(children);
    FitsAppend(stack, [top], maxDepth);
    FitsAppend(stack, frames, maxDepth);
    assert StackFits([top], maxDepth) <==> DepthOfAll(children) <= maxDepth - top.depth;
    assert StackFits(frames, maxDepth) <==> forall i :: 0 <= i < |children| ==> Depth(children[i]) <= maxDepth - top.depth
    by {
      assert forall i :: 0 <= i < |children| ==> frames[i] == Frame(children[i], top.depth + 1);
      if StackFits(frames, maxDepth) {
        forall i | 0 <= i < |children|
          ensures Depth(children[i]) <= maxDepth - top.depth
        {
          assert frames[i].depth + Depth(frames[i].value) <= maxDepth + 1;
        }
      }
    }
  }

  lemma FitsAppend(a: seq<Frame>, b: seq<Frame>, maxDepth: nat)
    ensures StackFits(a + b, maxDepth) <==> StackFits(a, maxDepth) && StackFits(b, maxDepth)
  {
    if StackFits(a + b, maxDepth) {
      forall i | 0 <= i < |a|
        ensures a[i].depth + Depth(a[i].value) <= maxDepth + 1
      {
        assert (a + b)[i] == a[i];
      }
      forall i | 0 <= i < |b|
        ensures b[i].depth + Depth(b[i].value) <= maxDepth + 1
      {
        assert (a + b)[|a| + i] == b[i];
      }
    }
  }

  /** The explicit stack accepts exactly the values whose node count and depth are within limits. */
  method BoundedJsonShape(value: Value, maxDepth: nat, maxNodes: nat) returns (within: bool)
    ensures within <==> Nodes(value) <= maxNodes && Depth(value) <= maxDepth
  {
    var stack := [Frame(value, 1)];
    var nodes := 0;
    assert stack[..0] == [];
    while stack != []
      invariant nodes + StackNodes(stack) == Nodes(value)
      invariant nodes <= maxNodes
      invariant StackFits(stack, maxDepth) <==> Depth(value) <= maxDepth
      decreases StackNodes(stack)
    {
      var top := stack[|stack| - 1];
      assert stack == stack[..|stack| - 1] + [top];
      ghost var whole := stack;
      stack := stack[..|stack| - 1];
      nodes := nodes + 1;
      if nodes > maxNodes || top.depth > maxDepth {
        assert top.depth > maxDepth ==> whole[|whole| - 1].depth + Depth(top.value) > maxDepth + 1;
        return false;
      }
      Expand(stack, top, maxDepth);
      stack := stack + Frames(Children(top.value), top.depth + 1);
    }
    return true;
  }

  /** The same traversal counting nodes alone. */
  method ValidateJsonNodes(value: Value, maxNodes: nat) returns (ok: bool)
    ensures ok <==> Nodes(value) <= maxNodes
  {
    var stack := [value];
    var nodes := 0;
    ghost var frames := [Frame(value, 1)];
    assert frames[..0] == [];
    hide Nodes, Depth, StackFits;
    while stack != []
      invariant |frames| == |stack| && forall i :: 0 <= i < |stack| ==> frames[i].value == stack[i]
      invariant nodes + StackNodes(frames) == Nodes(value)
      invariant nodes <= maxNodes
      decreases StackNodes(frames)
    {
      var top := stack[|stack| - 1];
      ghost var frame := frames[|frames| - 1];
      assert frames == frames[..|frames| - 1] + [frame];
      stack, frames := stack[..|stack| - 1], frames[..|frames| - 1];
      nodes := nodes + 1;
      if nodes > maxNodes {
        return false;
      }
      Expand(frames, frame, frame.depth);
      stack := stack + Children(top);
      frames := frames + Frames(Children(top), frame.depth + 1);
    }
    return true;
  }
}
