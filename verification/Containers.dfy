/** The part codes a section's containers vouch for. */
module Containers {
  import opened Common

  // Containers are numbered; `parts` and `divisions` hold child numbers.  A code is
  // kept in its normalised spelling, and "" stands for no usable code.

  datatype Node = Node(code: string, parts: seq<nat>, divisions: seq<nat>)

  type Forest = seq<Node>

  function Kids(f: Forest, n: nat): seq<nat>
    requires n < |f|
  {
    f[n].parts + f[n].divisions
  }

  ghost predicate Valid(f: Forest) {
    forall n, kid :: 0 <= n < |f| && kid in Kids(f, n) ==> kid < |f|
  }

  /** Each child's parent, as the loop over the flattened containers records it:
      a child listed twice belongs to its later lister. */
  ghost predicate IsParentMap(f: Forest, n: nat, parent: map<nat, nat>)
    requires n <= |f|
  {
    && (forall x :: x in parent ==> x < |f| && parent[x] < n && x in Kids(f, parent[x]))
    && (forall m, x :: 0 <= m < n && x in Kids(f, m) ==> x in parent && parent[x] >= m)
  }

  method AdoptKids(f: Forest, n: nat, parent0: map<nat, nat>) returns (parent: map<nat, nat>)
    requires Valid(f) && n < |f| && IsParentMap(f, n, parent0)
    ensures IsParentMap(f, n + 1, parent)
  {
    hide Kids, IsParentMap;
    var kids := Kids(f, n);
    parent := parent0;
    for i := 0 to |kids|
      invariant forall x :: x in parent ==> (x in parent0 && parent[x] == parent0[x]) || (x in kids && parent[x] == n)
      invariant forall x :: x in parent0 ==> x in parent
      invariant forall j :: 0 <= j < i ==> kids[j] in parent && parent[kids[j]] == n
    {
      parent := parent[kids[i] := n];
    }
    AdoptionExtends(f, n, parent0, parent);
  }

  lemma AdoptionExtends(f: Forest, n: nat, parent0: map<nat, nat>, parent: map<nat, nat>)
    requires Valid(f) && n < |f| && IsParentMap(f, n, parent0)
    requires forall x :: x in parent ==>
               (x in parent0 && parent[x] == parent0[x]) || (x in Kids(f, n) && parent[x] == n)
    requires forall x :: x in parent0 ==> x in parent
    requires forall j :: 0 <= j < |Kids(f, n)| ==> Kids(f, n)[j] in parent && parent[Kids(f, n)[j]] == n
    ensures IsParentMap(f, n + 1, parent)
  {
    hide Kids;
  }

  method ParentMap(f: Forest) returns (parent: map<nat, nat>)
    requires Valid(f)
    ensures IsParentMap(f, |f|, parent)
  {
    hide Kids;
    parent := map[];
    for n := 0 to |f|
      invariant IsParentMap(f, n, parent)
    {
      parent := AdoptKids(f, n, parent);
    }
  }

  /** The node `n` steps above `x`. */
  ghost function Up(parent: map<nat, nat>, x: nat, n: nat): Option<nat> {
    if n == 0 then Some(x)
    else
      var below := Up(parent, x, n - 1);
      if below.Some? && below.value in parent then Some(parent[below.value]) else None
  }

  ghost predicate Reaches(parent: map<nat, nat>, x: nat, y: nat) {
    exists n: nat :: Up(parent, x, n) == Some(y)
  }

  lemma ReachesParent(parent: map<nat, nat>, x: nat, y: nat)
    requires Reaches(parent, x, y) && y in parent
    ensures Reaches(parent, x, parent[y])
  {
    var n: nat :| Up(parent, x, n) == Some(y);
    assert Up(parent, x, n + 1) == Some(parent[y]);
  }

  lemma {:induction false} ReachesTransitive(parent: map<nat, nat>, x: nat, y: nat, z: nat, n: nat)
    requires Reaches(parent, x, y) && Up(parent, y, n) == Some(z)
    ensures Reaches(parent, x, z)
    decreases n
  {
    if n > 0 {
      var below := Up(parent, y, n - 1).value;
      ReachesTransitive(parent, x, y, below, n - 1);
      ReachesParent(parent, x, below);
    }
  }

  function PartCodes(f: Forest, n: nat): (r: set<string>)
    requires Valid(f) && n < |f|
  {
    assert forall kid :: kid in f[n].parts ==> kid in Kids(f, n);
    set kid | kid in f[n].parts && f[kid].code != "" :: f[kid].code
  }

  ghost predicate VouchedBy(f: Forest, parent: map<nat, nat>, x: nat, code: string)
    requires Valid(f)
  {
    exists y: nat :: y < |f| && Reaches(parent, x, y) && code in PartCodes(f, y)
  }

  /** The codes held by the parts of `x` or of one of its ancestors. */
  ghost function InScope(f: Forest, parent: map<nat, nat>, x: Option<nat>): (r: set<string>)
    requires Valid(f)
    ensures forall c :: c in r <==> x.Some? && VouchedBy(f, parent, x.value, c)
  {
    if x.None? then {}
    else
      var all := set y, c | 0 <= y < |f| && c in PartCodes(f, y) :: c;
      set c | c in all && VouchedBy(f, parent, x.value, c)
  }

  /** The walk to the root, stopping at a node already seen. */
  method CollectScope(f: Forest, parent: map<nat, nat>, node: Option<nat>) returns (codes: set<string>)
    requires Valid(f) && (forall x :: x in parent ==> x < |f| && parent[x] < |f|)
    requires node.Some? ==> node.value < |f|
    ensures codes == InScope(f, parent, node)
  {
    codes := {};
    if node.None? { return; }
    var x := node.value;
    var walk: Option<nat>, seen: set<nat> := node, {};
    assert Up(parent, x, 0) == Some(x);
    while walk.Some? && walk.value !in seen
      invariant walk.Some? ==> walk.value < |f| && Reaches(parent, x, walk.value)
      invariant forall y :: y in seen ==> y < |f| && Reaches(parent, x, y)
      invariant forall c :: c in codes <==> exists y :: y in seen && y < |f| && c in PartCodes(f, y)
      invariant x in seen || walk == Some(x)
      invariant forall y :: y in seen && y in parent ==> parent[y] in seen || walk == Some(parent[y])
      decreases Naturals(|f|) - seen
    {
      var y := walk.value;
      seen := seen + {y};
      codes := codes + PartCodes(f, y);
      if y in parent {
        ReachesParent(parent, x, y);
        walk := Some(parent[y]);
      } else {
        walk := None;
      }
    }
    forall y: nat | Reaches(parent, x, y)
      ensures y in seen
    {
      var n: nat :| Up(parent, x, n) == Some(y);
      ClosedHoldsChain(parent, x, seen, n);
    }
  }

  lemma {:induction false} ClosedHoldsChain(parent: map<nat, nat>, x: nat, seen: set<nat>, n: nat)
    requires x in seen && forall y :: y in seen && y in parent ==> parent[y] in seen
    ensures Up(parent, x, n).Some? ==> Up(parent, x, n).value in seen
  {
    if n > 0 {
      ClosedHoldsChain(parent, x, seen, n - 1);
    }
  }

  /** `a` is a container above section container `x`, or `x` itself, and holds parts. */
  ghost predicate HoldsParts(f: Forest, parent: map<nat, nat>, x: Option<nat>, a: nat)
    requires Valid(f)
  {
    a < |f| && x.Some? && Reaches(parent, x.value, a) && PartCodes(f, a) != {}
  }

  /** Where every part-holding container above `x` is also above `y`, whatever
      vouches for a PART line in `x` vouches for it in `y`: deeper containers, and
      the parts of one chapter, lose no evidence; and no container has none to lose. */
  lemma ScopeWidens(f: Forest, parent: map<nat, nat>, x: Option<nat>, y: Option<nat>)
    requires Valid(f)
    requires forall a: nat :: HoldsParts(f, parent, x, a) ==> HoldsParts(f, parent, y, a)
    ensures InScope(f, parent, x) <= InScope(f, parent, y)
  {
    hide PartCodes;
    forall c | c in InScope(f, parent, x)
      ensures c in InScope(f, parent, y)
    {
      var a: nat :| a < |f| && Reaches(parent, x.value, a) && c in PartCodes(f, a);
      assert HoldsParts(f, parent, x, a) && HoldsParts(f, parent, y, a);
    }
  }

  lemma {:induction false} RootReachesItself(parent: map<nat, nat>, x: nat, y: nat)
    requires x !in parent && Reaches(parent, x, y)
    ensures y == x
  {
    var n: nat :| Up(parent, x, n) == Some(y);
    UpFromRoot(parent, x, n);
  }

  lemma {:induction false} UpFromRoot(parent: map<nat, nat>, x: nat, n: nat)
    requires x !in parent
    ensures Up(parent, x, n) == if n == 0 then Some(x) else None
  {
    if n > 0 {
      UpFromRoot(parent, x, n - 1);
    }
  }

  /** A node nested in `x` sees at least what `x` sees. */
  lemma NestedScopeWidens(f: Forest, parent: map<nat, nat>, x: nat, y: nat)
    requires Valid(f) && Reaches(parent, y, x)
    ensures InScope(f, parent, Some(x)) <= InScope(f, parent, Some(y))
  {
    forall a: nat | a < |f| && Reaches(parent, x, a)
      ensures Reaches(parent, y, a)
    {
      var n: nat :| Up(parent, x, n) == Some(a);
      ReachesTransitive(parent, y, x, a, n);
    }
    ScopeWidens(f, parent, Some(x), Some(y));
  }

  /** Per contents entry, the part codes in scope of its container. */
  method PartCodesInScope(f: Forest, container: seq<Option<nat>>)
    returns (parent: map<nat, nat>, codes: seq<set<string>>)
    requires Valid(f) && forall e :: 0 <= e < |container| && container[e].Some? ==> container[e].value < |f|
    ensures IsParentMap(f, |f|, parent)
    ensures |codes| == |container|
    ensures forall e :: 0 <= e < |container| ==> codes[e] == InScope(f, parent, container[e])
  {
    parent := ParentMap(f);
    codes := [];
    for e := 0 to |container|
      invariant |codes| == e && forall i :: 0 <= i < e ==> codes[i] == InScope(f, parent, container[i])
    {
      var scope := CollectScope(f, parent, container[e]);
      codes := codes + [scope];
    }
  }
}
