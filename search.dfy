/**
 * The descendant search of MinecraftGeneralUtils.py: `findAll`, which
 * collects every descendant with a given name in pre-order, and `find`,
 * meant to return the first direct child with that name.
 */
module Search {
  import opened Wrappers
  import opened Tags

  /** `member_name is not None and member_name == name`. */
  predicate Matches(t: Tag, name: string)
    ensures Matches(t, name) <==> t.named && t.name == name
  {
    GetName(t) == Some(name)
  }

  /** Every tag below `t`, in pre-order: a member, then what is below it, then the next member. */
  function Descendants(t: Tag): (r: seq<Tag>)
    ensures |r| == Size(t) - 1
    decreases t, 1
  {
    match t.payload
    case ListVal(_, _, items) => DescendantsOf(items)
    case CompoundVal(members) => DescendantsOf(members)
    case _ => []
  }

  /** The members in order, each followed by its own descendants. */
  function DescendantsOf(ms: seq<Tag>): (r: seq<Tag>)
    ensures |r| == SizeOf(ms)
    decreases ms, 0
  {
    if ms == [] then [] else [ms[0]] + Descendants(ms[0]) + DescendantsOf(ms[1..])
  }

  /** The elements of `s` with the given name, in their order in `s`. */
  function Filter(s: seq<Tag>, name: string): (r: seq<Tag>)
    ensures |r| <= |s|
  {
    if s == [] then []
    else if Matches(s[0], name) then [s[0]] + Filter(s[1..], name)
    else Filter(s[1..], name)
  }

  /** The number of tags in a tree, the root included. */
  function Size(t: Tag): nat
    decreases t, 1
  {
    match t.payload
    case ListVal(_, _, items) => 1 + SizeOf(items)
    case CompoundVal(members) => 1 + SizeOf(members)
    case _ => 1
  }

  function SizeOf(ms: seq<Tag>): nat
    decreases ms, 0
  {
    if ms == [] then 0 else Size(ms[0]) + SizeOf(ms[1..])
  }

  lemma {:induction false} FilterAppend(a: seq<Tag>, b: seq<Tag>, name: string)
    ensures Filter(a + b, name) == Filter(a, name) + Filter(b, name)
  {
    if a == [] {
      assert a + b == b;
    } else {
      assert (a + b)[0] == a[0] && (a + b)[1..] == a[1..] + b;
      FilterAppend(a[1..], b, name);
    }
  }

  /** Filtering keeps each matching tag as often as it occurs and drops the others. */
  lemma {:induction false} FilterCount(s: seq<Tag>, name: string, x: Tag)
    ensures multiset(Filter(s, name))[x] == if Matches(x, name) then multiset(s)[x] else 0
  {
    if s != [] {
      assert s == [s[0]] + s[1..];
      FilterCount(s[1..], name, x);
    }
  }

  lemma {:induction false} DescendantsOfSnoc(ms: seq<Tag>, m: Tag)
    ensures DescendantsOf(ms + [m]) == DescendantsOf(ms) + ([m] + Descendants(m))
    decreases ms
  {
    if ms == [] {
      assert ms + [m] == [m];
      assert [m][1..] == [];
      assert [m] + Descendants(m) + [] == [m] + Descendants(m);
    } else {
      assert (ms + [m])[0] == ms[0] && (ms + [m])[1..] == ms[1..] + [m];
      DescendantsOfSnoc(ms[1..], m);
    }
  }

  /** The descendants of the members `ms` split at any member. */
  lemma {:induction false} DescendantsOfSplit(ms: seq<Tag>, i: nat)
    requires i < |ms|
    ensures DescendantsOf(ms) == DescendantsOf(ms[..i]) + ([ms[i]] + Descendants(ms[i])) + DescendantsOf(ms[i + 1..])
    decreases i
  {
    if i == 0 {
      assert ms[..0] == [];
    } else {
      var head := [ms[0]] + Descendants(ms[0]);
      var here := [ms[i]] + Descendants(ms[i]);
      DescendantsOfSplit(ms[1..], i - 1);
      assert ms[1..][..i - 1] == ms[1..i] && ms[1..][i - 1] == ms[i] && ms[1..][i..] == ms[i + 1..];
      assert DescendantsOf(ms) == head + DescendantsOf(ms[1..]);
      assert ms[..i][0] == ms[0] && ms[..i][1..] == ms[1..i];
      assert DescendantsOf(ms[..i]) == head + DescendantsOf(ms[1..i]);
      Regroup(head, DescendantsOf(ms[1..i]), here, DescendantsOf(ms[i + 1..]));
    }
  }

  lemma Regroup(x: seq<Tag>, p: seq<Tag>, h: seq<Tag>, q: seq<Tag>)
    ensures x + (p + h + q) == x + p + h + q
  {
  }

  /** Every descendant is a strictly smaller tree than its ancestor. */
  lemma {:induction false} DescendantsSmaller(t: Tag, x: Tag)
    requires x in Descendants(t)
    ensures Size(x) < Size(t)
    decreases t, 1
  {
    DescendantsOfSmaller(GetMembers(t), x);
  }

  lemma {:induction false} DescendantsOfSmaller(ms: seq<Tag>, x: Tag)
    requires x in DescendantsOf(ms)
    ensures Size(x) <= SizeOf(ms)
    decreases ms, 0
  {
    var m := ms[0];
    if x == m {
    } else if x in Descendants(m) {
      DescendantsSmaller(m, x);
    } else {
      DescendantsOfSmaller(ms[1..], x);
    }
  }

  /**
   * `findAll(tag, name)`: for each member, the member itself when its name
   * matches, then what the recursive call finds below it.
   */
  method FindAll(t: Tag, name: string) returns (r: seq<Tag>)
    ensures r == Filter(Descendants(t), name)
    decreases t
  {
    r := [];
    var members := GetMembers(t);
    assert members[..0] == [];
    for i := 0 to |members|
      invariant r == Filter(DescendantsOf(members[..i]), name)
    {
      var member := members[i];
      assert member < t by {
        assert member in members;
      }
      var below := FindAll(member, name);
      DescendantsOfSnoc(members[..i], member);
      FilterAppend(DescendantsOf(members[..i]), [member] + Descendants(member), name);
      FilterAppend([member], Descendants(member), name);
      assert [member][1..] == [];
      if Matches(member, name) {
        r := r + [member];
      }
      r := r + below;
      assert members[..i + 1] == members[..i] + [member];
    }
    assert members[..|members|] == members;
  }

  /**
   * What `findAll` returns: only descendants with the name, never the tag
   * itself, every matching descendant as often as it occurs, and nothing
   * when none matches.
   */
  lemma FindAllExactly(t: Tag, name: string, x: Tag)
    ensures x in Filter(Descendants(t), name) ==> x.named && x.name == name && x in Descendants(t)
    ensures t !in Filter(Descendants(t), name)
    ensures multiset(Filter(Descendants(t), name))[x] == if Matches(x, name) then multiset(Descendants(t))[x] else 0
  {
    FilterCount(Descendants(t), name, x);
    FilterCount(Descendants(t), name, t);
    if t in Descendants(t) {
      DescendantsSmaller(t, t);
    }
  }

  /** `findAll` on a tag none of whose descendants has the name is empty, as on one without members. */
  lemma {:induction false} FindAllNone(s: seq<Tag>, name: string)
    requires forall x :: x in s ==> !Matches(x, name)
    ensures Filter(s, name) == []
  {
    if s != [] {
      assert s[0] in s;
      assert forall x :: x in s[1..] ==> x in s;
      FindAllNone(s[1..], name);
    }
  }

  /**
   * Pre-order: around member i, the matches among the earlier members come
   * first, then member i itself if it matches, then the matches below it,
   * then those of the later members.
   */
  lemma FindAllOrder(t: Tag, name: string, i: nat)
    requires i < |GetMembers(t)|
    ensures var ms := GetMembers(t);
      Filter(Descendants(t), name)
      == Filter(DescendantsOf(ms[..i]), name)
         + (if Matches(ms[i], name) then [ms[i]] else [])
         + Filter(Descendants(ms[i]), name)
         + Filter(DescendantsOf(ms[i + 1..]), name)
  {
    var ms := GetMembers(t);
    assert Descendants(t) == DescendantsOf(ms);
    DescendantsOfSplit(ms, i);
    var before := DescendantsOf(ms[..i]);
    var here := [ms[i]] + Descendants(ms[i]);
    var after := DescendantsOf(ms[i + 1..]);
    FilterAppend(before + here, after, name);
    FilterAppend(before, here, name);
    FilterAppend([ms[i]], Descendants(ms[i]), name);
    assert [ms[i]][1..] == [];
    assert Filter([ms[i]], name) == if Matches(ms[i], name) then [ms[i]] else [];
  }

  /** Why `find` fails: the name `return_list` is not defined in its scope. */
  datatype FindError = NameError

  /**
   * `find(tag, name)` as written: the loop stops at the first direct child
   * with the name, but first appends it to the undefined `return_list`,
   * which raises NameError. Without a match it returns `return_member`,
   * which is never assigned past None.
   */
  method Find(t: Tag, name: string) returns (r: Result<Option<Tag>, FindError>)
    ensures r.Failure? <==> exists i :: 0 <= i < |GetMembers(t)| && Matches(GetMembers(t)[i], name)
    ensures r.Success? ==> r.value == None
  {
    var members := GetMembers(t);
    var returnMember: Option<Tag> := None;
    for i := 0 to |members|
      invariant forall j :: 0 <= j < i ==> !Matches(members[j], name)
    {
      if Matches(members[i], name) {
        return Failure(NameError);
      }
    }
    r := Success(returnMember);
  }

  /** What `find` is documented to do: the first direct child with the name, None if there is none. */
  method FindChild(t: Tag, name: string) returns (r: Option<Tag>)
    ensures r.None? <==> forall i :: 0 <= i < |GetMembers(t)| ==> !Matches(GetMembers(t)[i], name)
    ensures r.Some? ==> exists i :: 0 <= i < |GetMembers(t)| && GetMembers(t)[i] == r.value && Matches(r.value, name)
                               && forall j :: 0 <= j < i ==> !Matches(GetMembers(t)[j], name)
  {
    var members := GetMembers(t);
    r := None;
    for i := 0 to |members|
      invariant forall j :: 0 <= j < i ==> !Matches(members[j], name)
    {
      if Matches(members[i], name) {
        r := Some(members[i]);
        return;
      }
    }
  }
}
