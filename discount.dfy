/** The rate discount policy: VIP members get ten percent off, computed with
    Java's 32-bit int multiplication and truncating division. */
module DiscountPolicies {
  import opened Domain
  import opened JavaInt

  /** The discount strategies of the model. The rate policy is the only
      implementation of the discount-policy interface whose body is shown. */
  datatype DiscountPolicy = RateDiscountPolicy

  /** The rate policy's `discountPercent` field. */
  const DiscountPercent: int := 10

  /** `discount(member, price)`: `price * discountPercent / 100` for a VIP
      member, 0 otherwise. The product wraps around at 32 bits and the
      division truncates toward zero, as Java's int operators do. */
  function Discount(policy: DiscountPolicy, member: Member, price: Int32): (r: Int32)
  {
    match policy
    case RateDiscountPolicy =>
      if member.grade == VIP then TruncDiv(Wrap32(price * DiscountPercent), 100) else 0
  }

  /** When `price * 10` does not overflow, a VIP member's discount is the
      price divided by ten, truncated toward zero, for either sign of price. */
  lemma RateVipDiscountIsTenth(member: Member, price: Int32)
    requires member.grade == VIP
    requires InInt32(price * DiscountPercent)
    ensures Discount(RateDiscountPolicy, member, price) == TruncDiv(price, 10)
  {
    var q := TruncDiv(price, 10);
    var x := price * DiscountPercent;
    // x's remainder against 100 is ten times price's remainder against 10.
    assert x - q * 100 == 10 * (price - q * 10);
    TruncDivUnique(x, 100, q);
  }

  /** For a non-negative price whose product does not overflow, the discount
      lies between zero and the price; for a VIP member it is the largest
      amount whose tenfold does not exceed the price. */
  lemma RateDiscountBounds(policy: DiscountPolicy, member: Member, price: Int32)
    requires 0 <= price
    requires InInt32(price * DiscountPercent)
    ensures 0 <= Discount(policy, member, price) <= price
    ensures member.grade == VIP ==>
      Discount(policy, member, price) * 10 <= price < Discount(policy, member, price) * 10 + 10
  {
  }

  /** A BASIC member gets no discount, whatever the price. */
  lemma RateBasicDiscountIsZero(member: Member, price: Int32)
    requires member.grade == BASIC
    ensures Discount(RateDiscountPolicy, member, price) == 0
  {
  }

  /** The discount looks only at the member's grade, never its id or name. */
  lemma DiscountDependsOnlyOnGrade(policy: DiscountPolicy, m1: Member, m2: Member, price: Int32)
    requires m1.grade == m2.grade
    ensures Discount(policy, m1, price) == Discount(policy, m2, price)
  {
  }

  /** The two cases of the rate policy's unit tests: 10000 gives 1000 off for
      a VIP member and nothing for a BASIC one. */
  lemma RateDiscountExamples()
    ensures Discount(RateDiscountPolicy, Member(1, "memberVIP", VIP), 10000) == 1000
    ensures Discount(RateDiscountPolicy, Member(1, "memberBASIC", BASIC), 10000) == 0
  {
  }

  /** As written, a large price makes `price * 10` wrap around: a VIP member
      ordering at 300000000 gets a negative discount. */
  lemma RateDiscountOverflow()
    ensures Discount(RateDiscountPolicy, Member(1, "memberVIP", VIP), 300_000_000) == -12_949_672
  {
  }
}
