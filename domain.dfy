/** The plain records the services work on. Their Java classes are not part
    of this model; only the fields the services read are kept. */
module Domain {

  /** Membership tier; only VIP members get the rate discount. */
  datatype Grade = BASIC | VIP

  /** A registered member. Java's boxed Long id is an unbounded integer here. */
  datatype Member = Member(id: int, name: string, grade: Grade)

  /** An order as built by the order service. */
  datatype Order = Order(memberId: int, itemName: string, itemPrice: int, discountPrice: int)
}
