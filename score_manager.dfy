/** The money ledger of the Phaser prototype: a balance, the number of
    assemblies completed and a game-over flag that freezes both.

    `Ledger` is the ledger's state as a value and the functions below are its
    operations; the class `ScoreManager` holds the same state in fields and
    its methods update them as these functions say. */
module Score {

  /** Money at the start of a session. */
  const StartingMoney: int := 10000
  /** Money earned per completed assembly. */
  const AssemblyReward: int := 5000
  /** The part of the waste penalty that does not depend on progress. */
  const WastePenaltyBase: int := 2500
  /** The part of the waste penalty charged per assembly completed so far. */
  const WastePenaltyPerAssembly: int := 100

  datatype Ledger = Ledger(money: int, piecesAssembled: nat, gameOver: bool)

  /** The state the constructor establishes (`gameOver` is left unset in the
      source, which reads as false). */
  function Initial(): (l: Ledger)
    ensures l.money == 10000 && l.piecesAssembled == 0 && !l.gameOver
  {
    Ledger(StartingMoney, 0, false)
  }

  /** `decreaseMoney`: no clamping, the balance may go negative. */
  function AfterDecrease(l: Ledger, amount: int): (r: Ledger)
    ensures l.gameOver ==> r == l
    ensures !l.gameOver ==> r.money == l.money - amount
    ensures r.piecesAssembled == l.piecesAssembled && r.gameOver == l.gameOver
  {
    if l.gameOver then l else l.(money := l.money - amount)
  }

  /** `increaseMoney`. */
  function AfterIncrease(l: Ledger, amount: int): (r: Ledger)
    ensures l.gameOver ==> r == l
    ensures !l.gameOver ==> r.money == l.money + amount
    ensures r.piecesAssembled == l.piecesAssembled && r.gameOver == l.gameOver
  {
    if l.gameOver then l else l.(money := l.money + amount)
  }

  /** The penalty for a wasted (wrong) piece after `assembled` assemblies. */
  function WastePenalty(assembled: nat): int
  {
    assembled * WastePenaltyPerAssembly + WastePenaltyBase
  }

  /** `penaltyForWaste`. */
  function AfterPenalty(l: Ledger): (r: Ledger)
    ensures l.gameOver ==> r == l
    ensures !l.gameOver ==> r.money == l.money - (l.piecesAssembled * 100 + 2500)
    ensures r.piecesAssembled == l.piecesAssembled && r.gameOver == l.gameOver
  {
    if l.gameOver then l else AfterDecrease(l, WastePenalty(l.piecesAssembled))
  }

  /** `assemblyCompleted`: counts the assembly, then pays the reward. */
  function AfterAssembly(l: Ledger): (r: Ledger)
    ensures l.gameOver ==> r == l
    ensures !l.gameOver ==> r.piecesAssembled == l.piecesAssembled + 1 && r.money == l.money + 5000
    ensures r.gameOver == l.gameOver
  {
    if l.gameOver then l
    else AfterIncrease(l.(piecesAssembled := l.piecesAssembled + 1), AssemblyReward)
  }

  /** One call into the ledger. */
  datatype Mutation = Decrease(amount: int) | Increase(amount: int) | Waste | Assembly

  function Apply(l: Ledger, m: Mutation): Ledger
  {
    match m
    case Decrease(a) => AfterDecrease(l, a)
    case Increase(a) => AfterIncrease(l, a)
    case Waste => AfterPenalty(l)
    case Assembly => AfterAssembly(l)
  }

  /** The ledger after the given calls, in order. */
  function ApplyAll(l: Ledger, ms: seq<Mutation>): Ledger
    decreases |ms|
  {
    if ms == [] then l else ApplyAll(Apply(l, ms[0]), ms[1..])
  }

  /** How many of the calls are `assemblyCompleted`. */
  function Assemblies(ms: seq<Mutation>): nat
  {
    if ms == [] then 0 else (if ms[0] == Assembly then 1 else 0) + Assemblies(ms[1..])
  }

  /** No call sets `gameOver`: a ledger that is not over never becomes over. */
  lemma {:induction false} NeverOver(l: Ledger, ms: seq<Mutation>)
    requires !l.gameOver
    ensures !ApplyAll(l, ms).gameOver
    decreases |ms|
  {
    if ms != [] {
      NeverOver(Apply(l, ms[0]), ms[1..]);
    }
  }

  /** Once `gameOver` is set, every call is a no-op. */
  lemma {:induction false} FrozenWhenOver(l: Ledger, ms: seq<Mutation>)
    requires l.gameOver
    ensures ApplyAll(l, ms) == l
    decreases |ms|
  {
    if ms != [] {
      FrozenWhenOver(Apply(l, ms[0]), ms[1..]);
    }
  }

  /** `piecesAssembled` never decreases, and while the game runs it counts
      exactly the `assemblyCompleted` calls. */
  lemma {:induction false} AssembledCountsAssemblies(l: Ledger, ms: seq<Mutation>)
    ensures ApplyAll(l, ms).piecesAssembled >= l.piecesAssembled
    ensures !l.gameOver ==> ApplyAll(l, ms).piecesAssembled == l.piecesAssembled + Assemblies(ms)
    decreases |ms|
  {
    if ms != [] {
      AssembledCountsAssemblies(Apply(l, ms[0]), ms[1..]);
    }
  }

  /** The waste penalty grows by 100 with each assembly completed: a wrong
      piece after three assemblies costs 2800. */
  lemma PenaltyScales(l: Ledger)
    requires !l.gameOver
    ensures WastePenalty(l.piecesAssembled + 1) == WastePenalty(l.piecesAssembled) + 100
    ensures l.piecesAssembled == 3 ==> AfterPenalty(l).money == l.money - 2800
    ensures ApplyAll(l, [Assembly, Waste]).money == l.money + 5000 - WastePenalty(l.piecesAssembled + 1)
  {
  }

  class ScoreManager {
    var money: int
    var piecesAssembled: nat
    var gameOver: bool

    /** The ledger the fields hold. */
    function State(): Ledger
      reads this
    {
      Ledger(money, piecesAssembled, gameOver)
    }

    constructor ()
      ensures State() == Initial()
    {
      money := StartingMoney;
      piecesAssembled := 0;
      gameOver := false;
    }

    method DecreaseMoney(amount: int)
      modifies this
      ensures State() == AfterDecrease(old(State()), amount)
    {
      if gameOver {
        return;
      }
      money := money - amount;
    }

    method IncreaseMoney(amount: int)
      modifies this
      ensures State() == AfterIncrease(old(State()), amount)
    {
      if gameOver {
        return;
      }
      money := money + amount;
    }

    method PenaltyForWaste()
      modifies this
      ensures State() == AfterPenalty(old(State()))
    {
      if gameOver {
        return;
      }
      var penalty := piecesAssembled * WastePenaltyPerAssembly + WastePenaltyBase;
      DecreaseMoney(penalty);
    }

    method AssemblyCompleted()
      modifies this
      ensures State() == AfterAssembly(old(State()))
    {
      if gameOver {
        return;
      }
      piecesAssembled := piecesAssembled + 1;
      IncreaseMoney(AssemblyReward);
    }

    /** `getMoney`. */
    function GetMoney(): int
      reads this
    {
      money
    }
  }
}
