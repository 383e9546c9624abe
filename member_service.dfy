/** The member store: stored members keyed by id, with lookups and filters. */
module MemberStore {
  import opened Wrappers
  import opened Entities
  import opened Text

  /** The store's UNIQUE constraint on email, for keeping `m` under key `k`. */
  predicate AcceptsRow(members: map<nat, Member>, k: nat, m: Member) {
    forall j :: j in members && j != k ==> members[j].email != m.email
  }

  /** Members keyed by their own id, below the next fresh id, no two sharing an email. */
  predicate WellFormed(members: map<nat, Member>, nextId: nat) {
    && (forall k :: k in members ==> k < nextId && members[k].id == Some(k))
    && (forall i, j :: i in members && j in members && i != j ==> members[i].email != members[j].email)
  }

  /** `findByEmail`: the member with that email, if any is stored. */
  function ByEmail(members: map<nat, Member>, nextId: nat, email: string): (r: Option<Member>)
    requires WellFormed(members, nextId)
    ensures r.Some? <==> exists k :: k in members && members[k].email == email
    ensures r.Some? ==> r.value in members.Values && r.value.email == email
    ensures r.Some? ==> forall k :: k in members && members[k].email == email ==> members[k] == r.value
  {
    if exists k :: k in members && members[k].email == email then
      var k :| k in members && members[k].email == email;
      Some(members[k])
    else
      None
  }

  /** `findByNameContainingIgnoreCase`. */
  function NameSearch(members: map<nat, Member>, name: string): (r: set<Member>)
    ensures forall m :: m in r <==> m in members.Values && ContainsIgnoreCase(m.name, name)
  {
    set m | m in members.Values && ContainsIgnoreCase(m.name, name)
  }

  /** `findByMembershipStatus`. */
  function WithStatus(members: map<nat, Member>, status: MembershipStatus): (r: set<Member>)
    ensures forall m :: m in r <==> m in members.Values && m.membershipStatus == status
  {
    set m | m in members.Values && m.membershipStatus == status
  }

  /** The member service: the stored members and the next fresh id. */
  class MemberService {
    var members: map<nat, Member>
    var nextId: nat

    ghost predicate Valid()
      reads this
    {
      WellFormed(members, nextId)
    }

    constructor ()
      ensures Valid() && members == map[] && nextId == 0
    {
      members := map[];
      nextId := 0;
    }

    /** `getMemberById`: the stored member for a known id, empty otherwise. */
    function GetMemberById(id: nat): (r: Option<Member>)
      reads this
      ensures r.Some? <==> id in members
      ensures r.Some? ==> r.value == members[id]
    {
      if id in members then Some(members[id]) else None
    }

    /** `getMemberByEmail`. */
    function GetMemberByEmail(email: string): (r: Option<Member>)
      reads this
      requires Valid()
      ensures r == ByEmail(members, nextId, email)
    {
      ByEmail(members, nextId, email)
    }

    /** `searchMembers(name)`. */
    function SearchMembers(name: string): (r: set<Member>)
      reads this
      ensures r == NameSearch(members, name)
    {
      NameSearch(members, name)
    }

    /** `getActiveMembers`. */
    function GetActiveMembers(): (r: set<Member>)
      reads this
      ensures r == WithStatus(members, Active)
    {
      WithStatus(members, Active)
    }

    /**
      * `saveMember`: the record is stored as given (no validation) under its
      * own id, or a fresh one for a new member, unless its email is taken by
      * another stored member.
      */
    method SaveMember(m: Member) returns (r: Option<Member>)
      requires Valid()
      modifies this
      ensures Valid()
      ensures var k := if m.id.Some? then m.id.value else old(nextId);
              if AcceptsRow(old(members), k, m) then
                && r == Some(m.(id := Some(k)))
                && members == old(members)[k := m.(id := Some(k))]
                && nextId == (if k < old(nextId) then old(nextId) else k + 1)
              else
                r.None? && members == old(members) && nextId == old(nextId)
    {
      var k := if m.id.Some? then m.id.value else nextId;
      if AcceptsRow(members, k, m) {
        var stored := m.(id := Some(k));
        members := members[k := stored];
        if nextId <= k {
          nextId := k + 1;
        }
        r := Some(stored);
      } else {
        r := None;
      }
    }

    /** `deleteMember(id)`: that member goes, every other stays as it was. */
    method DeleteMember(id: nat)
      requires Valid()
      modifies this
      ensures Valid()
      ensures members == old(members) - {id} && nextId == old(nextId)
    {
      members := members - {id};
    }
  }

  /** A member built with the defaults and saved into a store without that email is stored ACTIVE. */
  lemma NewMemberSavedActive(members: map<nat, Member>, nextId: nat, name: string, email: string, today: nat)
    requires WellFormed(members, nextId)
    requires forall j :: j in members ==> members[j].email != email
    ensures AcceptsRow(members, nextId, NewMember(name, email, today))
    ensures var stored := NewMember(name, email, today).(id := Some(nextId));
            stored in WithStatus(members[nextId := stored], Active)
  {
    var stored := NewMember(name, email, today).(id := Some(nextId));
    assert members[nextId := stored][nextId] == stored;
  }

  /** The name search does not depend on the case of the name asked for. */
  lemma NameSearchIgnoresCase(members: map<nat, Member>, name: string)
    ensures NameSearch(members, Lower(name)) == NameSearch(members, name)
  {
    ContainsIgnoreCaseOfLower(name);
  }

  /** An empty name matches every stored member. */
  lemma NameSearchEmptyIsAll(members: map<nat, Member>)
    ensures NameSearch(members, "") == members.Values
  {
    ContainsIgnoreCaseEmpty();
  }
}
