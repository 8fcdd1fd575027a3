/**
 * Counting votes: the strict majority over two or three verdicts, whatever
 * whitespace they carry (backend/app/checks/consistency.py, lines 149-175).
 */
module Tallies {
  import opened Wrappers
  import opened SourceText
  import opened Levels

  // ----- Counting votes

  /** Votes that name the same verdict up to whitespace, in the order they came. */
  datatype Group = Group(name: string, members: seq<string>)

  function Class(u: Unicode, vote: string): string {
    Squeeze(u.isSpace, vote)
  }

  /** groups.setdefault(name, []).append(vote), in an insertion-ordered dictionary. */
  function AddVote(groups: seq<Group>, name: string, vote: string): seq<Group> {
    if groups == [] then [Group(name, [vote])]
    else if groups[0].name == name then [Group(name, groups[0].members + [vote])] + groups[1..]
    else [groups[0]] + AddVote(groups[1..], name, vote)
  }

  function GroupsOf(u: Unicode, votes: seq<string>): seq<Group> {
    if votes == [] then []
    else
      var n := |votes| - 1;
      AddVote(GroupsOf(u, votes[..n]), Class(u, votes[n]), votes[n])
  }

  /** max by size: the first of the largest groups. */
  function Largest(groups: seq<Group>): (g: Group)
    requires groups != []
    ensures g in groups && forall h :: h in groups ==> |h.members| <= |g.members|
  {
    if |groups| == 1 then groups[0]
    else
      var n := |groups| - 1;
      var before := Largest(groups[..n]);
      assert groups == groups[..n] + [groups[n]];
      if |groups[n].members| > |before.members| then groups[n] else before
  }

  /** Rounded to three decimals, as for the fractions of two or three votes. */
  function Round3(x: real): real {
    (x * 1000.0 + 0.5).Floor as real / 1000.0
  }

  /** `_tally`: the first vote of a strict majority class, and the share of the largest class. */
  method Tally(u: Unicode, votes: seq<string>) returns (verdict: Option<string>, agreement: real)
    requires votes != []
    ensures (verdict, agreement) == TallyOf(u, votes)
  {
    var groups: seq<Group> := [];
    for n := 0 to |votes|
      invariant groups == GroupsOf(u, votes[..n])
      invariant n > 0 ==> groups != []
    {
      assert votes[..n + 1][..n] == votes[..n];
      groups := AddVote(groups, Class(u, votes[n]), votes[n]);
    }
    assert votes[..|votes|] == votes;
    GroupsExact(u, votes);
    var group := Largest(groups);
    var count := |group.members|;
    verdict := if count * 2 > |votes| then Some(group.members[0]) else None;
    agreement := Round3(count as real / |votes| as real);
  }

  function TallyOf(u: Unicode, votes: seq<string>): (Option<string>, real)
    requires votes != []
  {
    GroupsExact(u, votes);
    assert votes[|votes| - 1] in votes;
    var group := Largest(GroupsOf(u, votes));
    var count := |group.members|;
    (if count * 2 > |votes| then Some(group.members[0]) else None, Round3(count as real / |votes| as real))
  }

  /** The votes of one class. */
  function OfClass(u: Unicode, votes: seq<string>, name: string): seq<string> {
    if votes == [] then []
    else
      var n := |votes| - 1;
      OfClass(u, votes[..n], name) + if Class(u, votes[n]) == name then [votes[n]] else []
  }

  function Count(u: Unicode, votes: seq<string>, name: string): nat {
    |OfClass(u, votes, name)|
  }

  ghost predicate Grouped(u: Unicode, votes: seq<string>, groups: seq<Group>) {
    && Distinct(groups)
    && (forall i :: 0 <= i < |groups| ==> Holds(u, votes, groups[i]))
    && (forall v :: v in votes ==> HasGroup(groups, Class(u, v)))
  }

  ghost predicate Distinct(groups: seq<Group>) {
    forall i, j :: 0 <= i < j < |groups| ==> groups[i].name != groups[j].name
  }

  ghost predicate Holds(u: Unicode, votes: seq<string>, g: Group) {
    g.members != [] && g.members == OfClass(u, votes, g.name)
  }

  ghost predicate HasGroup(groups: seq<Group>, name: string) {
    exists i :: 0 <= i < |groups| && groups[i].name == name
  }

  lemma {:induction false} GroupsExact(u: Unicode, votes: seq<string>)
    ensures Grouped(u, votes, GroupsOf(u, votes))
    ensures votes != [] ==> GroupsOf(u, votes) != []
  {
    if votes != [] {
      hide Grouped, AddVote, Class, GroupsOf;
      var n := |votes| - 1;
      GroupsOfNext(u, votes);
      GroupsExact(u, votes[..n]);
      GroupedStep(u, votes[..n], votes[n], GroupsOf(u, votes[..n]));
      assert votes == votes[..n] + [votes[n]];
    } else {
      NothingGrouped(u);
    }
  }

  lemma GroupsOfNext(u: Unicode, votes: seq<string>)
    requires votes != []
    ensures var n := |votes| - 1;
            GroupsOf(u, votes) == AddVote(GroupsOf(u, votes[..n]), Class(u, votes[n]), votes[n])
  {
  }

  lemma NothingGrouped(u: Unicode)
    ensures GroupsOf(u, []) == [] && Grouped(u, [], [])
  {
  }

  lemma GroupedStep(u: Unicode, votes: seq<string>, vote: string, groups: seq<Group>)
    requires Grouped(u, votes, groups)
    ensures Grouped(u, votes + [vote], AddVote(groups, Class(u, vote), vote))
    ensures AddVote(groups, Class(u, vote), vote) != []
  {
    hide Class, AddVote;
    var name := Class(u, vote);
    var after := AddVote(groups, name, vote);
    VoteAdded(groups, name, vote);
    forall k
      ensures OfClass(u, votes + [vote], k) == OfClass(u, votes, k) + if name == k then [vote] else []
    {
      assert (votes + [vote])[..|votes|] == votes;
    }
    NoneOfNewClass(u, votes, name);
    NamesStayDistinct(groups, name, vote);
    forall i | 0 <= i < |after|
      ensures Holds(u, votes + [vote], after[i])
    {
      if i < |groups| {
        assert Holds(u, votes, groups[i]);
      }
    }
    GroupsStay(u, votes, vote, groups);
  }

  lemma GroupsStay(u: Unicode, votes: seq<string>, vote: string, groups: seq<Group>)
    requires Grouped(u, votes, groups)
    ensures forall v :: v in votes + [vote] ==> HasGroup(AddVote(groups, Class(u, vote), vote), Class(u, v))
  {
    hide Class, AddVote, Holds;
    var after := AddVote(groups, Class(u, vote), vote);
    VoteAdded(groups, Class(u, vote), vote);
    forall v | v in votes + [vote]
      ensures HasGroup(after, Class(u, v))
    {
      if HasGroup(groups, Class(u, v)) {
        var i :| 0 <= i < |groups| && groups[i].name == Class(u, v);
        assert after[i].name == Class(u, v);
      }
    }
  }

  lemma NamesStayDistinct(groups: seq<Group>, name: string, vote: string)
    requires Distinct(groups)
    ensures Distinct(AddVote(groups, name, vote))
  {
    hide AddVote;
    VoteAdded(groups, name, vote);
    var after := AddVote(groups, name, vote);
    assert forall i :: 0 <= i < |groups| ==> after[i].name == groups[i].name;
  }

  /** Every group's content and every name after one more vote. */
  lemma {:induction false} VoteAdded(groups: seq<Group>, name: string, vote: string)
    requires Distinct(groups)
    ensures var after := AddVote(groups, name, vote);
            && after != [] && |groups| <= |after| <= |groups| + 1
            && (forall i :: 0 <= i < |groups| ==>
                  after[i] == if groups[i].name == name then Group(name, groups[i].members + [vote]) else groups[i])
            && (|after| == |groups| + 1 <==> forall i :: 0 <= i < |groups| ==> groups[i].name != name)
            && (|after| == |groups| + 1 ==> after[|groups|] == Group(name, [vote]))
            && HasGroup(after, name)
  {
    hide AddVote, Distinct;
    VoteJoins(groups, name, vote);
    VoteOpens(groups, name, vote);
  }

  lemma {:induction false} VoteJoins(groups: seq<Group>, name: string, vote: string)
    requires Distinct(groups)
    ensures |groups| <= |AddVote(groups, name, vote)|
    ensures forall i :: 0 <= i < |groups| ==>
              AddVote(groups, name, vote)[i]
              == if groups[i].name == name then Group(name, groups[i].members + [vote]) else groups[i]
  {
    if groups != [] && groups[0].name != name {
      hide Distinct;
      TailDistinct(groups);
      VoteJoins(groups[1..], name, vote);
      assert forall i :: 1 <= i < |groups| ==> groups[i] == groups[1..][i - 1];
    }
  }

  lemma TailDistinct(groups: seq<Group>)
    requires Distinct(groups) && groups != []
    ensures Distinct(groups[1..])
  {
  }

  lemma {:induction false} VoteOpens(groups: seq<Group>, name: string, vote: string)
    ensures HasGroup(AddVote(groups, name, vote), name)
    ensures AddVote(groups, name, vote) != [] && |AddVote(groups, name, vote)| <= |groups| + 1
    ensures |AddVote(groups, name, vote)| == |groups| + 1 <==> !HasGroup(groups, name)
    ensures |AddVote(groups, name, vote)| == |groups| + 1 ==> AddVote(groups, name, vote)[|groups|] == Group(name, [vote])
  {
    var after := AddVote(groups, name, vote);
    if groups == [] || groups[0].name == name {
      assert after[0].name == name;
    } else {
      VoteOpens(groups[1..], name, vote);
      HasGroupBehind(groups, name);
      HasGroupBehind(after, name);
      assert after[1..] == AddVote(groups[1..], name, vote);
    }
  }

  lemma HasGroupBehind(groups: seq<Group>, name: string)
    requires groups != [] && groups[0].name != name
    ensures HasGroup(groups, name) <==> HasGroup(groups[1..], name)
  {
    if HasGroup(groups[1..], name) {
      var k :| 0 <= k < |groups[1..]| && groups[1..][k].name == name;
      assert groups[k + 1].name == name;
    }
    if HasGroup(groups, name) {
      var k :| 0 <= k < |groups| && groups[k].name == name;
      assert groups[1..][k - 1].name == name;
    }
  }

  lemma {:induction false} NoneOfNewClass(u: Unicode, votes: seq<string>, name: string)
    ensures (forall v :: v in votes ==> Class(u, v) != name) ==> OfClass(u, votes, name) == []
  {
    if votes != [] {
      NoneOfNewClass(u, votes[..|votes| - 1], name);
    }
  }

  // ----- What a tally means

  /** `_tally` has a verdict exactly when some class holds more than half the votes, and it is a vote of that class. */
  lemma TallyIsStrictMajority(u: Unicode, votes: seq<string>) returns (most: nat)
    requires votes != []
    ensures var (verdict, agreement) := TallyOf(u, votes);
            && (verdict.Some? <==> exists name :: 2 * Count(u, votes, name) > |votes|)
            && (verdict.Some? ==> verdict.value in votes && 2 * Count(u, votes, Class(u, verdict.value)) > |votes|)
            && agreement == Round3(most as real / |votes| as real)
            && (exists name :: Count(u, votes, name) == most)
            && (forall name :: Count(u, votes, name) <= most)
  {
    hide Class;
    GroupsExact(u, votes);
    var groups := GroupsOf(u, votes);
    var group := Largest(groups);
    var i :| 0 <= i < |groups| && groups[i] == group;
    assert Holds(u, votes, groups[i]);
    most := |group.members|;
    assert Count(u, votes, group.name) == most;
    forall name
      ensures Count(u, votes, name) <= most
    {
      OfClassMembers(u, votes, name);
      if OfClass(u, votes, name) != [] {
        var v := OfClass(u, votes, name)[0];
        assert v in OfClass(u, votes, name);
        var j :| 0 <= j < |groups| && groups[j].name == Class(u, v);
        assert Holds(u, votes, groups[j]) && groups[j] in groups;
      }
    }
    OfClassMembers(u, votes, group.name);
    assert group.members[0] in group.members;
  }

  lemma {:induction false} OfClassMembers(u: Unicode, votes: seq<string>, name: string)
    ensures forall v :: v in OfClass(u, votes, name) <==> v in votes && Class(u, v) == name
  {
    if votes != [] {
      OfClassMembers(u, votes[..|votes| - 1], name);
      assert votes == votes[..|votes| - 1] + [votes[|votes| - 1]];
    }
  }

  lemma {:induction false} OfClassConcat(u: Unicode, a: seq<string>, b: seq<string>, name: string)
    ensures OfClass(u, a + b, name) == OfClass(u, a, name) + OfClass(u, b, name)
  {
    hide Class;
    if b == [] {
      assert a + b == a;
    } else {
      OfClassConcat(u, a, b[..|b| - 1], name);
      assert (a + b)[..|a + b| - 1] == a + b[..|b| - 1];
    }
  }

  lemma WithoutOne(votes: seq<string>, other: seq<string>, j: nat)
    requires votes != [] && j < |other| && other[j] == votes[|votes| - 1]
    requires multiset(votes) == multiset(other)
    ensures multiset(votes[..|votes| - 1]) == multiset(other[..j] + other[j + 1..])
  {
    var n := |votes| - 1;
    assert votes == votes[..n] + [votes[n]];
    assert other == other[..j] + [other[j]] + other[j + 1..];
    assert multiset(votes) == multiset(votes[..n]) + multiset{votes[n]};
    assert multiset(other) == multiset(other[..j]) + multiset{other[j]} + multiset(other[j + 1..]);
    var a, b := multiset(votes[..n]), multiset(other[..j]) + multiset(other[j + 1..]);
    forall v
      ensures a[v] == b[v]
    {
      assert (a + multiset{votes[n]})[v] == (b + multiset{votes[n]})[v];
    }
    assert multiset(other[..j] + other[j + 1..]) == b;
  }

  /** The size of a class does not depend on the order of the votes. */
  lemma {:induction false} CountIgnoresOrder(u: Unicode, votes: seq<string>, other: seq<string>, name: string)
    requires multiset(votes) == multiset(other)
    ensures Count(u, votes, name) == Count(u, other, name)
  {
    hide Class;
    if votes == [] {
      assert |multiset(other)| == |other|;
    } else {
      var n := |votes| - 1;
      assert votes == votes[..n] + [votes[n]];
      assert votes[n] in multiset(other);
      var j :| 0 <= j < |other| && other[j] == votes[n];
      var rest := other[..j] + other[j + 1..];
      assert other == other[..j] + ([other[j]] + other[j + 1..]);
      WithoutOne(votes, other, j);
      CountIgnoresOrder(u, votes[..n], rest, name);
      OfClassConcat(u, other[..j], other[j + 1..], name);
      OfClassConcat(u, other[..j], [other[j]] + other[j + 1..], name);
      OfClassConcat(u, [other[j]], other[j + 1..], name);
      assert OfClass(u, [other[j]], name) == if Class(u, votes[n]) == name then [votes[n]] else [] by {
        assert [other[j]][..0] == [];
      }
    }
  }

  lemma {:induction false} TwoClassesFit(u: Unicode, votes: seq<string>, a: string, b: string)
    requires a != b
    ensures Count(u, votes, a) + Count(u, votes, b) <= |votes|
  {
    if votes != [] {
      TwoClassesFit(u, votes[..|votes| - 1], a, b);
    }
  }

  /** The winning class and the agreement are the same in whatever order the votes come. */
  lemma TallyIgnoresOrder(u: Unicode, votes: seq<string>, other: seq<string>)
    requires votes != [] && other != [] && multiset(votes) == multiset(other)
    ensures var (verdict, agreement) := TallyOf(u, votes);
            var (verdict', agreement') := TallyOf(u, other);
            && agreement == agreement'
            && (verdict.Some? <==> verdict'.Some?)
            && (verdict.Some? ==> Class(u, verdict.value) == Class(u, verdict'.value))
  {
    hide Class, TallyOf, OfClass;
    var most := TallyIsStrictMajority(u, votes);
    var most' := TallyIsStrictMajority(u, other);
    assert |votes| == |multiset(votes)| == |multiset(other)| == |other|;
    forall name
      ensures Count(u, votes, name) == Count(u, other, name)
    {
      CountIgnoresOrder(u, votes, other, name);
    }
    var verdict, verdict' := TallyOf(u, votes).0, TallyOf(u, other).0;
    if verdict.Some? && verdict'.Some? && Class(u, verdict.value) != Class(u, verdict'.value) {
      TwoClassesFit(u, votes, Class(u, verdict.value), Class(u, verdict'.value));
    }
  }

  /** When two votes differ, no class holds all of them. */
  lemma SomeClassIsNotAll(u: Unicode, votes: seq<string>, a: string, b: string, name: string)
    requires a in votes && b in votes && Class(u, a) != Class(u, b)
    ensures Count(u, votes, name) <= |votes| - 1
  {
    hide Class;
    var other := if name == Class(u, a) then b else a;
    OfClassMembers(u, votes, Class(u, other));
    assert other in OfClass(u, votes, Class(u, other));
    TwoClassesFit(u, votes, name, Class(u, other));
  }
}
