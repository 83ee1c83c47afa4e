/** The transaction ids of the UDP scraper. */
module Counter {

  const TOP := 4294967295

  /** The id runs through 0 to 2^32, both included, before the prefix goes up. */
  const PERIOD := TOP + 2

  datatype Count = Count(prefix: nat, id: int)

  const START := Count(0, -1)

  function Advance(c: Count): Count {
    if c.id > TOP then Count(c.prefix + 1, 0) else Count(c.prefix, c.id + 1)
  }

  function Calls(n: nat): Count {
    if n == 0 then START else Advance(Calls(n - 1))
  }

  class TransactionCounter {
    var transId: int
    var dbPrefix: nat

    constructor ()
      ensures View() == START
    {
      transId, dbPrefix := -1, 0;
    }

    function View(): Count
      reads this
    {
      Count(dbPrefix, transId)
    }

    method Next() returns (db: nat, id: int)
      modifies this
      ensures View() == Advance(old(View())) && Count(db, id) == View()
    {
      if transId > TOP {
        transId := 0;
        dbPrefix := dbPrefix + 1;
      } else {
        transId := transId + 1;
      }
      db, id := dbPrefix, transId;
    }
  }

  /** Call number `n`, counted from 0, gives the quotient and remainder of `n` by the period. */
  lemma {:induction false} ClosedForm(n: nat)
    ensures Calls(n + 1) == Count(n / PERIOD, n % PERIOD)
  {
    if n > 0 {
      ClosedForm(n - 1);
      NextDivision(n - 1);
    }
  }

  lemma NextDivision(n: nat)
    ensures (n + 1) / PERIOD == if n % PERIOD == PERIOD - 1 then n / PERIOD + 1 else n / PERIOD
    ensures (n + 1) % PERIOD == if n % PERIOD == PERIOD - 1 then 0 else n % PERIOD + 1
  {
  }

  /** Later calls give greater pairs: no pair ever comes twice. */
  lemma Increasing(m: nat, n: nat)
    requires m < n
    ensures var a, b := Calls(m + 1), Calls(n + 1);
            a.prefix < b.prefix || (a.prefix == b.prefix && a.id < b.id)
  {
    ClosedForm(m);
    ClosedForm(n);
    if n / PERIOD == m / PERIOD {
      assert n - m == n % PERIOD - m % PERIOD;
    }
  }

  /** The id fits 32 bits except at the last call of every period, where it is 2^32. */
  lemma FitsExactly(n: nat)
    ensures 0 <= Calls(n + 1).id <= TOP <==> n % PERIOD != TOP + 1
    ensures n % PERIOD == TOP + 1 ==> Calls(n + 1).id == 0x1_0000_0000
  {
    ClosedForm(n);
  }
}
