/** Inductive lists, for everything the model recurses through. */
module Lists {
  datatype List<+T> = Nil | Cons(head: T, tail: List<T>)

  function Length<T>(xs: List<T>): (n: nat) {
    if xs.Nil? then 0 else 1 + Length(xs.tail)
  }

  function Nth<T>(xs: List<T>, i: nat): (x: T)
    requires i < Length(xs)
  {
    if i == 0 then xs.head else Nth(xs.tail, i - 1)
  }
}
