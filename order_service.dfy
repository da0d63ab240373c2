/** The order service: look the member up, ask the discount policy, and
    build the order. */
module OrderService {
  import opened Wrappers
  import opened Domain
  import opened JavaInt
  import opened DiscountPolicies
  import opened Repository
  import opened MemberService

  /** The one way order creation can fail: the member id is not registered,
      `findById` returns null and the rate policy throws while reading the
      null member's grade. */
  datatype OrderError = NullPointerException

  /** The outcome of `createOrder(memberId, itemName, itemPrice)` against a
      store and a policy. */
  function PlaceOrder(store: map<int, Member>, policy: DiscountPolicy,
                      memberId: int, itemName: string, itemPrice: Int32): (r: Result<Order, OrderError>)
    ensures r.Success? <==> memberId in store
    ensures r.Failure? ==> r.error == NullPointerException
    ensures r.Success? ==>
      && r.value.memberId == memberId
      && r.value.itemName == itemName
      && r.value.itemPrice == itemPrice
  {
    match Lookup(store, memberId)
    case None => Failure(NullPointerException)
    case Some(member) => Success(Order(memberId, itemName, itemPrice, Discount(policy, member, itemPrice)))
  }

  /** The discount of a placed order is the policy's discount for the stored
      member at that price, for every int price. For the rate policy and a
      non-negative price whose tenfold fits in an int, it is a tenth of the
      price for a VIP member and 0 for a BASIC one, never more than the price. */
  lemma PlaceOrderDiscount(store: map<int, Member>, policy: DiscountPolicy,
                           memberId: int, itemName: string, itemPrice: Int32)
    requires memberId in store
    ensures PlaceOrder(store, policy, memberId, itemName, itemPrice).Success?
    ensures PlaceOrder(store, policy, memberId, itemName, itemPrice).value.discountPrice
      == Discount(policy, store[memberId], itemPrice)
    ensures 0 <= itemPrice && InInt32(itemPrice * DiscountPercent) ==>
      var d := PlaceOrder(store, policy, memberId, itemName, itemPrice).value.discountPrice;
      && 0 <= d <= itemPrice
      && (store[memberId].grade == VIP ==> d == itemPrice / 10)
      && (store[memberId].grade == BASIC ==> d == 0)
  {
    if 0 <= itemPrice && InInt32(itemPrice * DiscountPercent) {
      RateDiscountBounds(policy, store[memberId], itemPrice);
      if store[memberId].grade == VIP {
        RateVipDiscountIsTenth(store[memberId], itemPrice);
      }
    }
  }

  /** Data written through a save is what the next order sees: an order
      placed right after saving m is priced for m. */
  lemma OrderSeesSavedMember(store: map<int, Member>, policy: DiscountPolicy,
                             m: Member, itemName: string, itemPrice: Int32)
    ensures PlaceOrder(store[m.id := m], policy, m.id, itemName, itemPrice)
      == Success(Order(m.id, itemName, itemPrice, Discount(policy, m, itemPrice)))
  {
  }

  class OrderServiceImpl {
    /** The injected repository; `final`, so fixed at construction. */
    const memberRepository: MemoryMemberRepository
    /** The injected discount policy; the setter may replace it. */
    var discountPolicy: DiscountPolicy

    constructor (memberRepository: MemoryMemberRepository, discountPolicy: DiscountPolicy)
      ensures this.memberRepository == memberRepository
      ensures this.discountPolicy == discountPolicy
    {
      this.memberRepository := memberRepository;
      this.discountPolicy := discountPolicy;
    }

    /** `setDisCountPolicy`: replaces the policy; the repository reference is
        a constant and cannot change. */
    method SetDisCountPolicy(discountPolicy: DiscountPolicy)
      modifies this
      ensures this.discountPolicy == discountPolicy
    {
      this.discountPolicy := discountPolicy;
    }

    /** `createOrder`: reads the repository without changing it and returns
        the order PlaceOrder describes, or the exception for an unknown id. */
    method CreateOrder(memberId: int, itemName: string, itemPrice: Int32)
      returns (r: Result<Order, OrderError>)
      ensures r == PlaceOrder(memberRepository.store, discountPolicy, memberId, itemName, itemPrice)
    {
      var member := memberRepository.FindById(memberId);
      match member
      case None =>
        r := Failure(NullPointerException);
      case Some(m) =>
        var discountPrice := Discount(discountPolicy, m, itemPrice);
        r := Success(Order(memberId, itemName, itemPrice, discountPrice));
    }
  }

  /** The rate-discount test: one repository passed to both services, a VIP
      member joined through the member service, and an order for "itemA" at
      10000 through the order service gets 1000 off. */
  method SharedRepositoryScenario() returns (order: Result<Order, OrderError>)
    ensures order == Success(Order(1, "itemA", 10000, 1000))
  {
    var memberRepository := new MemoryMemberRepository();
    var member := Member(1, "memberA", VIP);
    var memberService := new MemberServiceImpl(memberRepository);
    memberService.Join(member);
    var orderService := new OrderServiceImpl(memberRepository, RateDiscountPolicy);
    order := orderService.CreateOrder(1, "itemA", 10000);
    RateDiscountExamples();
    DiscountDependsOnlyOnGrade(RateDiscountPolicy, member, Member(1, "memberVIP", VIP), 10000);
  }
}
