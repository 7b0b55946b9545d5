/** JSON documents in memory, which their holders may change at any depth. */
module Documents {
  import opened Json

  /** What a dictionary or list holds: a scalar, or another dictionary or list. */
  datatype Value = Scalar(json: Json) | Ref(node: Node)

  datatype Member = Member(key: string, value: Value)

  /** A dictionary, or a list, whose keys are then empty. */
  class Node {
    var isList: bool
    var members: seq<Member>
    ghost var Repr: set<Node>    // this document and all documents inside it

    ghost predicate Valid()
      reads this, Repr
      decreases Repr
    {
      this in Repr && forall i :: 0 <= i < |members| ==> ValidMember(i)
    }

    ghost predicate ValidMember(i: nat)
      requires i < |members|
      reads this, Repr
      decreases Repr, 0
    {
      members[i].value.Ref? ==>
        var n := members[i].value.node;
        n in Repr && n.Repr < Repr && this !in n.Repr && n.Valid()
    }

    /** The document as a value. */
    ghost function View(): Json
      requires Valid()
      reads this, Repr
      decreases Repr, |members| + 1
    {
      var fields := ViewTo(|members|);
      if isList then Arr(Values(fields)) else Obj(fields)
    }

    ghost function ViewTo(n: nat): seq<Field>
      requires Valid() && n <= |members|
      reads this, Repr
      decreases Repr, n
    {
      if n == 0 then []
      else
        assert ValidMember(n - 1);
        var m := members[n - 1];
        ViewTo(n - 1) + [Field(m.key, match m.value case Scalar(j) => j case Ref(x) => x.View())]
    }

    constructor (isList: bool, members: seq<Member>, ghost inner: set<Node>)
      requires forall i :: 0 <= i < |members| && members[i].value.Ref? ==>
                 var n := members[i].value.node; n in inner && n.Repr <= inner && n.Valid()
      ensures Valid() && Repr == inner + {this}
      ensures this.isList == isList && this.members == members
    {
      this.isList, this.members, Repr := isList, members, inner + {this};
    }
  }

  ghost function Values(fields: seq<Field>): seq<Json> {
    if fields == [] then [] else Values(fields[..|fields| - 1]) + [fields[|fields| - 1].value]
  }

  lemma {:induction false} ValuesAt(fields: seq<Field>)
    ensures |Values(fields)| == |fields| && forall i :: 0 <= i < |fields| ==> Values(fields)[i] == fields[i].value
  {
    if fields != [] {
      ValuesAt(fields[..|fields| - 1]);
    }
  }

  /** The value that a member shows. */
  ghost predicate ShownAs(v: Value, j: Json)
    requires v.Ref? ==> v.node.Valid()
    reads if v.Ref? then {v.node} + v.node.Repr else {}
  {
    match v
    case Scalar(x) => j == x
    case Ref(x) => j == x.View()
  }

  lemma {:induction false} ViewToShows(node: Node, n: nat, i: nat)
    requires node.Valid() && i < n <= |node.members| && node.ValidMember(i)
    ensures var fields := node.ViewTo(n);
            |fields| == n && fields[i].key == node.members[i].key && ShownAs(node.members[i].value, fields[i].value)
    decreases n
  {
    if i < n - 1 {
      ViewToShows(node, n - 1, i);
    } else if n > 1 {
      assert node.ValidMember(0);
      ViewToShows(node, n - 1, 0);
    } else {
      assert node.ViewTo(0) == [];
    }
  }

  /** A document shows every one of its members, in order: a dictionary with its keys,
      a list without. */
  lemma ViewShows(node: Node, i: nat)
    requires node.Valid() && i < |node.members| && node.ValidMember(i)
    ensures if node.isList
            then node.View().Arr? && |node.View().items| == |node.members|
                 && ShownAs(node.members[i].value, node.View().items[i])
            else node.View().Obj? && |node.View().fields| == |node.members|
                 && node.View().fields[i].key == node.members[i].key
                 && ShownAs(node.members[i].value, node.View().fields[i].value)
  {
    ViewToShows(node, |node.members|, i);
    ValuesAt(node.ViewTo(|node.members|));
  }

  /** `json.loads(json.dumps(payload))`: an equal document that shares nothing with
      the original, at any depth. */
  method JsonClone(payload: Node) returns (copy: Node)
    requires payload.Valid()
    ensures copy.Valid() && fresh(copy.Repr) && copy.View() == payload.View()
    decreases payload.Repr
  {
    var members: seq<Member> := [];
    ghost var inner: set<Node> := {};
    for i := 0 to |payload.members|
      invariant |members| == i && fresh(inner)
      invariant forall k :: 0 <= k < i ==> Copied(payload, k, members[k], inner)
    {
      assert payload.ValidMember(i);
      var m := payload.members[i];
      match m.value {
        case Scalar(_) =>
          members := members + [m];
        case Ref(node) =>
          var c := JsonClone(node);
          members := members + [Member(m.key, Ref(c))];
          inner := inner + c.Repr;
      }
    }
    copy := new Node(payload.isList, members, inner);
    SameView(payload, copy, |members|);
  }

  /** The k-th member of the original and its copy. */
  ghost predicate Copied(payload: Node, k: nat, m: Member, inner: set<Node>)
    requires payload.Valid() && k < |payload.members|
    reads payload, payload.Repr, inner
  {
    assert payload.ValidMember(k);
    var x := payload.members[k];
    && m.key == x.key && m.value.Ref? == x.value.Ref?
    && (m.value.Scalar? ==> m == x)
    && (m.value.Ref? ==>
          && m.value.node in inner && m.value.node.Repr <= inner && m.value.node.Valid()
          && m.value.node.View() == x.value.node.View())
  }

  lemma {:induction false} SameView(a: Node, b: Node, n: nat)
    requires a.Valid() && b.Valid() && a.isList == b.isList && |a.members| == |b.members| && n <= |a.members|
    requires forall k :: 0 <= k < |a.members| ==> Copied(a, k, b.members[k], b.Repr)
    ensures a.ViewTo(n) == b.ViewTo(n)
    decreases n
  {
    if n > 0 {
      SameView(a, b, n - 1);
      assert a.ValidMember(n - 1) && b.ValidMember(n - 1);
      assert Copied(a, n - 1, b.members[n - 1], b.Repr);
    }
  }
}
