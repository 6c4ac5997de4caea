/**
 * The configuration shared by the screens: how many machine players the next
 * game seats. There is one instance for the whole application; here it is a
 * plain object, and the value it holds is always 1, 2 or 3.
 */
module Config {
  import opened Game

  class GameConfig {
    var numBots: int

    /** The configured number of machines is always 1, 2 or 3. */
    predicate Valid()
      reads this
    {
      1 <= numBots <= 3
    }

    /** A new configuration seats one machine. */
    constructor ()
      ensures Valid() && numBots == 1
    {
      numBots := 1;
    }

    /**
     * Stores a number of machines from 1 to 3; any other value is refused
     * with the IllegalArgument error and the stored value stays as it was.
     */
    method SetNumBots(n: int) returns (o: Outcome)
      requires Valid()
      modifies this
      ensures Valid()
      ensures o == Fail(IllegalArgument) <==> n < 1 || n > 3
      ensures o.Fail? ==> o == Fail(IllegalArgument)
      ensures o == Pass ==> numBots == n
      ensures o.Fail? ==> numBots == old(numBots)
    {
      if n < 1 || n > 3 {
        return Fail(IllegalArgument);
      }
      numBots := n;
      return Pass;
    }

    /** The stored number of machines, which is within 1..3. */
    function GetNumBots(): (n: int)
      reads this
      requires Valid()
      ensures 1 <= n <= 3 && n == numBots
    {
      numBots
    }
  }

  /** A value accepted by the setter is what the getter returns next. */
  method SetThenGet(c: GameConfig, n: int) returns (got: int)
    requires c.Valid() && 1 <= n <= 3
    modifies c
    ensures got == n && c.Valid()
  {
    var o := c.SetNumBots(n);
    got := c.GetNumBots();
  }
}
