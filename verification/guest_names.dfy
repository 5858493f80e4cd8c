/** Guest joins: the display name probe loop ends, with a name nobody in the network has. */
module GuestNames {
  import opened Decimal
  import opened Store

  ghost predicate NameTaken(members: map<string, Member>, n: string, name: string) {
    exists k :: k in members && HasNetworkPrefix(k, n) && members[k].displayName == name
  }

  function GuestName(base: string, i: int): string {
    base + " (" + Itoa(i) + ")"
  }

  /** The names the loop tries: the base, then base (2), base (3), ... */
  function Candidate(base: string, k: nat): string {
    if k == 0 then base else GuestName(base, k + 1)
  }

  lemma FirstCandidates(base: string)
    ensures Candidate(base, 0) == base && Candidate(base, 1) == base + " (2)"
  {
    assert Itoa(2) == "2";
    assert base + " (" + "2" + ")" == base + " (2)";
  }

  lemma {:induction false} CandidatesDistinct(base: string, j: nat, k: nat)
    requires Candidate(base, j) == Candidate(base, k)
    ensures j == k
  {
    assert j > 0 ==> |Candidate(base, j)| > |base|;
    assert k > 0 ==> |Candidate(base, k)| > |base|;
    if j > 0 && k > 0 {
      SuffixDigits(base, j);
      SuffixDigits(base, k);
      DigitsInjective(j + 1, k + 1);
    }
  }

  lemma SuffixDigits(base: string, k: nat)
    requires k > 0
    ensures
      var name := Candidate(base, k);
      |base| + 2 < |name| && name[|base| + 2..|name| - 1] == Digits(k + 1)
  {
    assert Candidate(base, k) == (base + " (") + (Itoa(k + 1) + ")");
  }

  /** Candidates that are all in one set are no more than the set is large: they are distinct. */
  lemma {:induction false} CandidatesInside(base: string, k: nat, names: set<string>)
    requires forall j :: 0 <= j < k ==> Candidate(base, j) in names
    ensures k <= |names|
  {
    if k > 0 {
      var top := Candidate(base, k - 1);
      forall j | 0 <= j < k - 1 ensures Candidate(base, j) in names - {top} {
        if Candidate(base, j) == top {
          CandidatesDistinct(base, j, k - 1);
        }
      }
      CandidatesInside(base, k - 1, names - {top});
    }
  }

  /** The names in use in the network. */
  function Names(members: map<string, Member>, n: string): set<string> {
    set k | k in members && HasNetworkPrefix(k, n) :: members[k].displayName
  }

  function MembersOf(members: map<string, Member>, n: string): set<string> {
    set k | k in members && HasNetworkPrefix(k, n)
  }

  /** A network has no more names than members. */
  lemma {:induction false} NamesAtMostMembers(members: map<string, Member>, n: string)
    ensures |Names(members, n)| <= |MembersOf(members, n)|
    decreases |members|
  {
    var all := MembersOf(members, n);
    if all == {} {
      assert Names(members, n) == {};
    } else {
      var k :| k in all;
      var rest := members - {k};
      assert MembersOf(rest, n) == all - {k};
      NamesAtMostMembers(rest, n);
      assert Names(members, n) == Names(rest, n) + {members[k].displayName};
    }
  }

  method MemberByName(members: map<string, Member>, n: string, name: string) returns (found: bool)
    ensures found <==> name in Names(members, n)
  {
    var keys := members.Keys;
    while keys != {}
      invariant keys <= members.Keys
      invariant forall k :: k in members && k !in keys ==> !(HasNetworkPrefix(k, n) && members[k].displayName == name)
      decreases |keys|
    {
      var k :| k in keys;
      if HasNetworkPrefix(k, n) && members[k].displayName == name {
        return true;
      }
      keys := keys - {k};
    }
    return false;
  }

  lemma TakenIffNamed(members: map<string, Member>, n: string, name: string)
    ensures NameTaken(members, n, name) <==> name in Names(members, n)
  {}

  /**
   * The probe loop of joinAsGuest: it ends after at most one probe more than the
   * network has members, on the first candidate no member of it uses.
   */
  method ChooseGuestName(members: map<string, Member>, n: string, base: string) returns (name: string, probes: nat)
    ensures !NameTaken(members, n, name)
    ensures 1 <= probes <= |MembersOf(members, n)| + 1
    ensures name == Candidate(base, probes - 1)
    ensures !NameTaken(members, n, base) ==> name == base
    ensures NameTaken(members, n, base) && !NameTaken(members, n, base + " (2)") ==> name == base + " (2)"
    ensures forall j :: 0 <= j < probes - 1 ==> NameTaken(members, n, Candidate(base, j))
  {
    name := base;
    var i := 2;
    probes := 1;
    var found := MemberByName(members, n, name);
    ghost var names := Names(members, n);
    while found
      invariant probes >= 1 && i == probes + 1 && name == Candidate(base, probes - 1)
      invariant found <==> name in names
      invariant forall j :: 0 <= j < probes - 1 ==> Candidate(base, j) in names
      decreases |names| + 1 - probes
    {
      CandidatesInside(base, probes, names);
      name := GuestName(base, i);
      i := i + 1;
      probes := probes + 1;
      found := MemberByName(members, n, name);
    }
    CandidatesInside(base, probes - 1, names);
    FirstCandidates(base);
    NamesAtMostMembers(members, n);
    TakenIffNamed(members, n, base);
    TakenIffNamed(members, n, base + " (2)");
    forall k | k == name || exists j :: 0 <= j < probes - 1 && k == Candidate(base, j)
      ensures NameTaken(members, n, k) <==> k in names
    {
      TakenIffNamed(members, n, k);
    }
  }
}
