/**
 * The parts of ParseMinecraftAlpha.py's tag objects that change in place:
 * a Compound's member list (`add`, `remove`) and the parent link every tag
 * keeps, walked by `getLevel`.
 */
module Objects {
  import opened Tags

  /**
   * `list.remove(x)` as a value: `s` without its first element equal to
   * `x`, or `s` itself when there is none.
   */
  function RemoveFirst(s: seq<Tag>, x: Tag): (r: seq<Tag>)
    ensures |r| <= |s| <= |r| + 1
  {
    if s == [] then []
    else if s[0] == x then s[1..]
    else [s[0]] + RemoveFirst(s[1..], x)
  }

  /** When the first `x` is at `i`, removing it cuts exactly that element out. */
  lemma {:induction false} RemoveFirstAt(s: seq<Tag>, x: Tag, i: nat)
    requires i < |s| && s[i] == x && x !in s[..i]
    ensures RemoveFirst(s, x) == s[..i] + s[i + 1..]
    decreases i
  {
    if i == 0 {
      assert s[..0] + s[1..] == s[1..];
    } else {
      assert s[0] in s[..i];
      assert s[1..][i - 1] == x;
      assert s[1..][..i - 1] == s[1..i];
      assert forall y :: y in s[1..i] ==> y in s[..i];
      RemoveFirstAt(s[1..], x, i - 1);
      assert [s[0]] + (s[1..][..i - 1] + s[1..][i..]) == s[..i] + s[i + 1..];
    }
  }

  /** Removing an absent element changes nothing. */
  lemma {:induction false} RemoveFirstAbsent(s: seq<Tag>, x: Tag)
    requires x !in s
    ensures RemoveFirst(s, x) == s
  {
    if s != [] {
      assert s[1..] + [] == s[1..];
      assert x !in s[1..] by {
        assert forall y :: y in s[1..] ==> y in s;
      }
      RemoveFirstAbsent(s[1..], x);
      assert [s[0]] + s[1..] == s;
    }
  }

  /**
   * What `remove` promises: exactly one occurrence of `x` less when there
   * is one, and the others keep their order.
   */
  lemma {:induction false} RemoveFirstCounts(s: seq<Tag>, x: Tag)
    ensures multiset(RemoveFirst(s, x)) == multiset(s) - multiset{x}
    ensures |RemoveFirst(s, x)| == if x in s then |s| - 1 else |s|
  {
    if s != [] {
      assert s == [s[0]] + s[1..];
      if s[0] != x {
        RemoveFirstCounts(s[1..], x);
        assert x in s <==> x in s[1..];
      }
    }
  }

  /** The elements before the removed one stay in front, the ones after it follow. */
  lemma {:induction false} RemoveFirstKeepsOrder(s: seq<Tag>, x: Tag)
    requires x in s
    ensures exists i :: 0 <= i < |s| && s[i] == x && x !in s[..i] && RemoveFirst(s, x) == s[..i] + s[i + 1..]
  {
    var i := FirstOf(s, x);
    RemoveFirstAt(s, x, i);
  }

  /** The index of the first `x` in `s`. */
  function FirstOf(s: seq<Tag>, x: Tag): (i: nat)
    requires x in s
    ensures i < |s| && s[i] == x && x !in s[..i]
  {
    if s[0] == x then 0
    else
      assert x in s[1..] by { assert s == [s[0]] + s[1..]; }
      var j := FirstOf(s[1..], x);
      assert s[..j + 1] == [s[0]] + s[1..][..j];
      j + 1
  }

  /**
   * A `TagCompound` object: the header fields and the member list that
   * `add` and `remove` change in place.
   */
  class CompoundTag {
    var named: bool
    var name: string
    var members: seq<Tag>

    constructor (named: bool, name: string, members: seq<Tag>)
      ensures this.named == named && this.name == name && this.members == members
    {
      this.named := named;
      this.name := name;
      this.members := members;
    }

    /** The tree this object stands for. */
    function AsTag(): (t: Tag)
      reads this
      ensures t.named == named && t.name == name && KindOf(t.payload) == Compound
      ensures GetMembers(t) == members
    {
      Tag(named, name, CompoundVal(members))
    }

    /** `add`: `members.extend(objects)`, the new members after the old ones. */
    method Add(objects: seq<Tag>)
      modifies this
      ensures members == old(members) + objects
      ensures named == old(named) && name == old(name)
    {
      members := members + objects;
    }

    /**
     * `remove`: `members.remove(x)` deletes the first member equal to `x`.
     * When there is none the list raises ValueError: `removed` is false and
     * nothing changes.
     */
    method Remove(x: Tag) returns (removed: bool)
      modifies this
      ensures removed <==> x in old(members)
      ensures members == RemoveFirst(old(members), x)
      ensures named == old(named) && name == old(name)
    {
      var i := 0;
      while i < |members| && members[i] != x
        invariant 0 <= i <= |members|
        invariant x !in members[..i]
      {
        assert members[..i + 1] == members[..i] + [members[i]];
        i := i + 1;
      }
      if i == |members| {
        assert members[..i] == members;
        RemoveFirstAbsent(members, x);
        return false;
      }
      RemoveFirstAt(members, x, i);
      members := members[..i] + members[i + 1..];
      removed := true;
    }
  }

  /**
   * A tag object's `parent` link: the root has none, every other tag points
   * to the tag whose `readTag` created it. `depth`, a proof-only counter,
   * is the length of the chain above the node.
   */
  class TagNode {
    const parent: TagNode?
    ghost const depth: nat

    ghost predicate Valid()
      decreases depth
    {
      if parent == null then depth == 0
      else parent.depth + 1 == depth && parent.Valid()
    }

    /** The chain of parents, nearest first. */
    ghost function Ancestors(): (a: seq<TagNode>)
      requires Valid()
      ensures |a| == depth
      ensures parent == null <==> a == []
      ensures parent != null ==> a[0] == parent
      decreases depth
    {
      if parent == null then [] else [parent] + parent.Ancestors()
    }

    constructor (parent: TagNode?)
      requires parent != null ==> parent.Valid()
      ensures Valid() && this.parent == parent
      ensures depth == if parent == null then 0 else parent.depth + 1
    {
      this.parent := parent;
      this.depth := if parent == null then 0 else parent.depth + 1;
    }

    /** `getLevel`: the number of parents above this tag. */
    method GetLevel() returns (level: nat)
      requires Valid()
      ensures level == |Ancestors()|
    {
      var p := parent;
      level := 0;
      while p != null
        invariant p == null ==> level == depth
        invariant p != null ==> p.Valid() && level + p.depth + 1 == depth
        decreases if p == null then 0 else p.depth + 1
      {
        p := p.parent;
        level := level + 1;
      }
    }
  }
}
