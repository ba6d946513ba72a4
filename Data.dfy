/** The record stored in the memoization table: a board configuration string
    paired with the score computed for it. */
module Records {

  /** An immutable (configuration, score) pair. Being a datatype value, a
      record can never have its configuration or score changed after it is
      built; any integer score is stored as given, with no range check. */
  datatype Data = Data(config: string, score: int) {

    /** The configuration string the record was built with: together with
        the score it rebuilds the record. */
    function GetConfiguration(): (c: string)
      ensures Data(c, score) == this
    {
      config
    }

    /** The score the record was built with: together with the
        configuration it rebuilds the record. */
    function GetScore(): (s: int)
      ensures Data(config, s) == this
    {
      score
    }
  }

  /** Both getters give back exactly what the constructor was passed. */
  lemma GettersReturnConstructorArguments(c: string, s: int)
    ensures Data(c, s).GetConfiguration() == c
    ensures Data(c, s).GetScore() == s
  {
  }

  /** Two records are the same value exactly when their configurations and
      scores agree: the record carries nothing else. */
  lemma RecordIsItsFields(d: Data, e: Data)
    ensures d == e <==> (d.GetConfiguration() == e.GetConfiguration() && d.GetScore() == e.GetScore())
  {
  }
}
