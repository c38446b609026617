/** The client's end-of-message configuration: the configured integer, the
    EOM byte derived from it, and whether EOM detection is switched off. */
module EomConfig {
  import opened JavaTypes

  /** The per-instance state of the client. `eomInt` is the configured value the
      instance was built with; it is never read again after construction. */
  datatype Client = Client(eomInt: Int32, eomByte: JByte, eomIgnore: bool)

  /** The configured value used when none is given: out of byte range, so no EOM. */
  const DefaultEomInt: Int32 := 1000

  predicate OutOfByteRange(n: int)
  {
    n < -128 || n > 127
  }

  /** Construction from the configured integer `n`. */
  function NewClient(n: Int32): (c: Client)
    ensures c.eomInt == n
    ensures c.eomIgnore <==> OutOfByteRange(n)
    ensures !c.eomIgnore ==> c.eomByte == n
    ensures (c.eomByte - n) % 256 == 0
  {
    Client(n, ToByte(n), OutOfByteRange(n))
  }

  /** `getEolByte`. On a reachable state with detection off it still reports
      the configured value wrapped to a byte. */
  function GetEolByte(c: Client): (b: JByte)
    ensures Consistent(c) && c.eomIgnore ==> b == ToByte(c.eomInt)
  {
    c.eomByte
  }

  /** Sets the EOM byte and always switches detection on. */
  function SetEolByte(c: Client, b: JByte): (r: Client)
    ensures GetEolByte(r) == b
    ensures !r.eomIgnore
    ensures r.eomInt == c.eomInt
  {
    c.(eomByte := b, eomIgnore := false)
  }

  /** With the default configuration EOM detection is off. */
  lemma DefaultIgnoresEom()
    ensures NewClient(DefaultEomInt).eomIgnore
  {
  }

  /** What every client state reachable from construction satisfies: while
      detection is off, the byte is still the wrapped configured value. */
  predicate Consistent(c: Client)
  {
    c.eomIgnore ==> OutOfByteRange(c.eomInt) && c.eomByte == ToByte(c.eomInt)
  }

  /** The state of a client after construction with `n` and then `sets` applied
      in order. The last set wins whatever came before; with no set the
      constructor's derivation stands; every reachable state is consistent. */
  function AfterSets(n: Int32, sets: seq<JByte>): (c: Client)
    ensures Consistent(c)
    ensures c.eomInt == n
    ensures sets == [] ==> c == NewClient(n)
    ensures sets != [] ==> !c.eomIgnore && GetEolByte(c) == sets[|sets| - 1]
    decreases |sets|
  {
    if sets == [] then NewClient(n)
    else SetEolByte(AfterSets(n, sets[..|sets| - 1]), sets[|sets| - 1])
  }
}
