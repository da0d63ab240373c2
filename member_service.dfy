/** The member service: a thin layer that forwards to an injected repository. */
module MemberService {
  import opened Wrappers
  import opened Domain
  import opened Repository

  class MemberServiceImpl {
    /** The injected repository; `final`, so fixed at construction. */
    const memberRepository: MemoryMemberRepository

    constructor (memberRepository: MemoryMemberRepository)
      ensures this.memberRepository == memberRepository
    {
      this.memberRepository := memberRepository;
    }

    /** `getMemberRepository` does not hand out the injected repository: it
        allocates a new, empty one every time. */
    method GetMemberRepository() returns (r: MemoryMemberRepository)
      ensures fresh(r) && r != memberRepository
      ensures r.Valid() && r.store == map[] && r.history == []
    {
      r := new MemoryMemberRepository();
    }

    /** `join`: exactly a save on the injected repository, nothing else. */
    method Join(member: Member)
      requires memberRepository.Valid()
      modifies memberRepository
      ensures memberRepository.Valid()
      ensures memberRepository.store == old(memberRepository.store)[member.id := member]
      ensures memberRepository.history == old(memberRepository.history) + [SaveOp(member)]
    {
      memberRepository.Save(member);
    }

    /** `findMember`: what the injected repository's `findById` returns; no
        state changes. */
    method FindMember(memberId: int) returns (r: Option<Member>)
      ensures r == Lookup(memberRepository.store, memberId)
      ensures memberRepository.Valid() ==>
        (r.Some? <==> exists i :: LatestSave(memberRepository.history, i, memberId))
      ensures memberRepository.Valid() ==>
        forall i :: LatestSave(memberRepository.history, i, memberId) ==>
          r == Some(memberRepository.history[i].member)
    {
      r := memberRepository.FindById(memberId);
    }
  }

  /** The member service test, with the service wired to a new repository as
      the plain-Java configuration does: the joined member is found again,
      equal to the one joined and with the same name. */
  method JoinThenFindScenario() returns (found: Option<Member>)
    ensures found == Some(Member(1, "memberA", VIP))
    ensures found.Some? && found.value.name == "memberA"
  {
    var memberRepository := new MemoryMemberRepository();
    var memberService := new MemberServiceImpl(memberRepository);
    var memberA := Member(1, "memberA", VIP);
    memberService.Join(memberA);
    found := memberService.FindMember(1);
  }
}
