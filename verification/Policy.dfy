/** Remediation classes and their strategies. */
module Policy {
  import Clock
  import opened BreakerHistory
  import opened CircuitBreaker

  datatype Class = Default | Stateless | Cache | DB | Critical | Unknown(name: string)

  /** `maxAttempts` is the number of attempts per burst window the class is meant to have. */
  datatype Posture = Posture(kind: Class, strategy: Strategy, maxAttempts: int)

  /** A class without a configured posture gets the default one. */
  function StrategyFor(c: Class): (p: Posture)
    ensures p.strategy.Positive()
    ensures p.kind == if c.Unknown? then Default else c
  {
    match c
    case Stateless => Posture(Stateless, Strategy(15 * Clock.SECOND, 6, 10 * Clock.MINUTE, 3 * Clock.MINUTE), 10)
    case Cache => Posture(Cache, Strategy(30 * Clock.SECOND, 4, 10 * Clock.MINUTE, 5 * Clock.MINUTE), 6)
    case DB => Posture(DB, Strategy(120 * Clock.SECOND, 3, 15 * Clock.MINUTE, 15 * Clock.MINUTE), 4)
    case Critical => Posture(Critical, Strategy(5 * Clock.MINUTE, 2, 30 * Clock.MINUTE, 30 * Clock.MINUTE), 2)
    case _ => Posture(Default, Strategy(60 * Clock.SECOND, 5, 10 * Clock.MINUTE, 5 * Clock.MINUTE), 8)
  }

  /** The dearer a restart, the longer the rest between two, the fewer failures are borne, and
      the longer they are remembered and answered for. */
  function Dearness(c: Class): int {
    match c
    case Stateless => 0
    case Cache => 1
    case DB => 3
    case Critical => 4
    case _ => 2
  }

  lemma DearerIsSlower(c: Class, d: Class)
    requires Dearness(c) < Dearness(d)
    ensures var s, t := StrategyFor(c).strategy, StrategyFor(d).strategy;
            s.cooldown < t.cooldown && s.burstWindow <= t.burstWindow && s.openFor <= t.openFor &&
            (c != Cache ==> t.burstLimit < s.burstLimit)
  {
  }

  /** An unknown class behaves as the breaker's own default, which is also what replaces an
      unusable strategy. */
  lemma UnknownIsDefault(name: string, st: Strategy)
    requires !st.Positive()
    ensures StrategyFor(Unknown(name)) == StrategyFor(Default) && StrategyFor(Default).strategy == Effective(st)
  {
  }
}
