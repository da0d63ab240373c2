# Members and orders, modelled in Dafny

This project models the domain logic of a small Spring dependency-injection
demo. The demo has three parts:

- an in-memory member repository;
- a rate discount policy that gives VIP members ten percent off;
- a member service and an order service that use the repository and the policy.

The Spring container is taken away. The services are wired by hand: a
repository object is passed to their constructors, just as the rate-discount
test does.

Files and modules:

- `wrappers.dfy` (`Wrappers`): `Option` stands for Java's null. `Result` is the outcome of an operation that can throw.
- `domain.dfy` (`Domain`): `Grade`, `Member(id, name, grade)` and `Order(memberId, itemName, itemPrice, discountPrice)`. Only the fields that the services use are kept.
- `java_int.dfy` (`JavaInt`): Java's 32-bit `int` type. `Wrap32` is two's-complement wrap-around. `TruncDiv` is division truncated toward zero.
- `discount.dfy` (`DiscountPolicies`): the rate policy, `price * 10 / 100` for VIP members and 0 for everyone else. It uses Java int semantics, overflow included.
- `repository.dfy` (`Repository`): the class `MemoryMemberRepository`. Its `store` map is changed in place by `Save` and `Clear`. A ghost `history` records every save and clear. `Valid()` ties the store to `Replay(history)`. The lemma `ReplayLookup` describes every lookup in terms of that history: a lookup finds the latest save of the id that no clear came after, and is absent otherwise.
- `member_service.dfy` (`MemberService`): `MemberServiceImpl`. Its methods forward to the injected repository. `GetMemberRepository` returns a new, empty repository, not the injected one.
- `order_service.dfy` (`OrderService`): `OrderServiceImpl`. Its policy field can be replaced with a setter. `CreateOrder` is proved equal to the value function `PlaceOrder`.

Three behaviours of the source are easy to miss, and the model keeps them:

- The discount uses Java's truncating division and wrapping multiplication, not floor division. A VIP price of 300000000 overflows `price * 10` and yields a negative discount (`RateDiscountOverflow`).
- Ordering for an unknown member id is not a clean not-found result. `findById` returns null, and the rate policy throws while it reads the null member's grade. The model returns `Failure(NullPointerException)`.
- Services only share a store when one repository object is passed to both (`SharedRepositoryScenario`).

## Model

| member | source | states |
|---|---|---|
| `JavaInt.Wrap32` | src/main/java/hello/re_core/discount/RateDiscountPolicy.java:17 | the 32-bit result of `price * discountPercent` is the int32 value congruent to the exact product modulo 2^32, and equals the product when it fits |
| `JavaInt.TruncDiv` | src/main/java/hello/re_core/discount/RateDiscountPolicy.java:17 | Java's `/`: the remainder has the sign of the dividend and is smaller than the divisor, and the quotient lies between 0 and the dividend |
| `JavaInt.TruncDivUnique` | src/main/java/hello/re_core/discount/RateDiscountPolicy.java:17 | those remainder conditions determine the truncated quotient uniquely |
| `DiscountPolicies.Discount` | src/main/java/hello/re_core/discount/RateDiscountPolicy.java:15-21 | no contract of its own: `TruncDiv(Wrap32(price * 10), 100)` for VIP, 0 otherwise; described by the lemmas below |
| `DiscountPolicies.RateVipDiscountIsTenth` | src/main/java/hello/re_core/discount/RateDiscountPolicy.java:12-17 | for a VIP member with no overflow, `price * 10 / 100` equals the price divided by ten, truncated toward zero, for both signs |
| `DiscountPolicies.RateDiscountBounds` | src/main/java/hello/re_core/discount/RateDiscountPolicy.java:15-21 | for `0 <= price` with `price * 10` in int32, `0 <= discount <= price`; for VIP, `10 * discount <= price < 10 * discount + 10` |
| `DiscountPolicies.RateBasicDiscountIsZero` | src/main/java/hello/re_core/discount/RateDiscountPolicy.java:18-20 | a BASIC member's discount is 0 at every price |
| `DiscountPolicies.DiscountDependsOnlyOnGrade` | src/main/java/hello/re_core/discount/RateDiscountPolicy.java:15-21 | two members with the same grade get the same discount, whatever their id and name |
| `DiscountPolicies.RateDiscountExamples` | src/test/java/hello/re_core/discount/RateDiscountPolicyTest.java:21-44 | price 10000 gives 1000 off for VIP and 0 for BASIC |
| `DiscountPolicies.RateDiscountOverflow` | src/main/java/hello/re_core/discount/RateDiscountPolicy.java:17 | as written, VIP price 300000000 wraps `price * 10` and gives discount -12949672 |
| `Repository.Lookup` | src/main/java/hello/re_core/repository/MemoryMemberRepository.java:22 | no contract of its own: the map's `get`, the stored member or absent for a missing id |
| `Repository.Replay` | src/main/java/hello/re_core/repository/MemoryMemberRepository.java:13-27 | no contract of its own: the store left by a sequence of saves and clears on an empty store; `Valid()` ties the repository's `store` to it |
| `Repository.ReplayLookup` | src/main/java/hello/re_core/repository/MemoryMemberRepository.java:16-27 | after any sequence of saves and clears, an id is present iff some save of it has no later save of that id and no later clear; the lookup then returns that save's member |
| `Repository.SavedBeforeClearIsAbsent` | src/main/java/hello/re_core/repository/MemoryMemberRepository.java:21-27 | an id saved only before a clear is absent afterwards |
| `Repository.MemoryMemberRepository.constructor` | src/main/java/hello/re_core/repository/MemoryMemberRepository.java:13 | a new repository has an empty store and an empty history |
| `Repository.MemoryMemberRepository.Save` | src/main/java/hello/re_core/repository/MemoryMemberRepository.java:16-18 | the store maps `member.id` to `member`; the key set grows by at most that id; every other id's lookup is unchanged |
| `Repository.MemoryMemberRepository.FindById` | src/main/java/hello/re_core/repository/MemoryMemberRepository.java:20-23 | returns the stored member or absent, without changing anything; the result is present iff there is a latest save of the id with no clear after it, and equals that save's member |
| `Repository.MemoryMemberRepository.Clear` | src/main/java/hello/re_core/repository/MemoryMemberRepository.java:25-27 | the store becomes empty and the clear is recorded |
| `MemberService.MemberServiceImpl.constructor` | src/main/java/hello/re_core/service/MemberServiceImpl.java:11-16 | keeps the injected repository; the field is a constant and is never reassigned |
| `MemberService.MemberServiceImpl.GetMemberRepository` | src/main/java/hello/re_core/service/MemberServiceImpl.java:18-20 | returns a freshly allocated, empty repository distinct from the injected one |
| `MemberService.MemberServiceImpl.Join` | src/main/java/hello/re_core/service/MemberServiceImpl.java:24-27 | changes only the injected repository, exactly as `Save` does |
| `MemberService.MemberServiceImpl.FindMember` | src/main/java/hello/re_core/service/MemberServiceImpl.java:29-32 | returns the injected repository's lookup result, changes nothing, and matches the history as `FindById` does |
| `MemberService.JoinThenFindScenario` | src/test/java/hello/re_core/service/MemberServiceTest.java:23-34 | joining member 1 "memberA" and then finding id 1 returns an equal member with the same name |
| `OrderService.PlaceOrder` | src/main/java/hello/re_core/order/OrderServiceImpl.java:58-64 | an order is created iff the member id is stored; otherwise the outcome is the null-pointer failure; the order carries the given id, item name and price |
| `OrderService.PlaceOrderDiscount` | src/main/java/hello/re_core/order/OrderServiceImpl.java:60-63 | for a stored id and every int price, the order is created and its discount is the policy's discount for the stored member; only when the price is non-negative and `price * 10` fits in an int, the discount is also within `[0, price]`, a tenth of the price for VIP and 0 for BASIC |
| `OrderService.OrderSeesSavedMember` | src/main/java/hello/re_core/order/OrderServiceImpl.java:59-63 | an order placed right after saving a member is priced with that member's grade |
| `OrderService.OrderServiceImpl.constructor` | src/main/java/hello/re_core/order/OrderServiceImpl.java:26-30 | stores both the repository and the policy |
| `OrderService.OrderServiceImpl.SetDisCountPolicy` | src/main/java/hello/re_core/order/OrderServiceImpl.java:39-43 | replaces the policy; the repository reference is a constant and stays the same |
| `OrderService.OrderServiceImpl.CreateOrder` | src/main/java/hello/re_core/order/OrderServiceImpl.java:58-64 | modifies nothing and returns exactly `PlaceOrder` of the current store and policy |
| `OrderService.SharedRepositoryScenario` | src/test/java/hello/re_core/discount/RateDiscountPolicyTest.java:48-67 | with one repository shared by both services, joining VIP member 1 and ordering "itemA" at 10000 gives an order with discount 1000 |

## Left out

- The Spring container is not modelled: component scanning, `@Autowired`, `@Primary`, `@Configuration`, bean lookup by name or type, and `AutoAppConfig.java`. It is framework behaviour that is not visible in the source.
- `AppConfig.java` is not modelled. In plain Java each call to `memberRepository()` builds a separate store. Only Spring's proxy makes the store shared, and that proxy is not visible in the source.
- `OrderApp.java` is not modelled. It is a printing demo driver. All `System.out.println` tracing is left out as well.
- The `MemberRepository` and `DiscountPolicy` interfaces are not written as abstract types. The services hold the concrete repository class, and `DiscountPolicy` is a datatype whose only variant is the rate policy.
- `FixDiscountPolicy` and the test-only `DiscountService` in `AllBeanTest.java` are not part of this model. `FixDiscountPolicy`'s body is not shown.
- `Order.calculatePrice`, and the bodies of `Member` and `Grade`, are not part of this model. Only their data fields are kept.
- Concurrency is left out. The model is single-threaded, so the difference between `HashMap` and `ConcurrentHashMap` does not arise.
- Member ids are unbounded integers. Null ids, and null members passed to `save`, are not modelled.
- `JavaInt.TruncDiv`: defined for positive divisors only. The source divides only by the constant 100, so Java's `MIN_VALUE / -1` case never occurs.
