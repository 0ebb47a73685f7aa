/**
 The privilege levels and their order, with the numbers the source gives them.
 */
module Privilege {

  datatype Priv = User | Supervisor | Hypervisor | Machine

  function Rank(p: Priv): (n: nat)
    ensures n <= 3
  {
    match p
    case User => 0
    case Supervisor => 1
    case Hypervisor => 2
    case Machine => 3
  }
}
