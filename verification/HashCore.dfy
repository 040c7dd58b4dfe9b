/**
 A message digest or MAC as the kernel presents it to the driver. A hash state is the bytes absorbed
 since its base; only a state whose base is a reset has a digest that means anything, so `digest` is
 an arbitrary function of the whole state.
 */
module HashCore {
  import opened Bytes

  const AALG_MAX_RESULT_LEN := 64

  /** A state starts from a reset, from whatever `final` left behind, or from a foreign import. */
  datatype Base = Reset | Spent(prev: HashState) | Foreign(source: HashState)

  datatype HashState = HashState(base: Base, msg: Bytes)

  /** A keyed algorithm; `digestSize` bytes are produced by `final`. */
  datatype Hash = Hash(digestSize: nat, digest: HashState -> Bytes) {
    ghost predicate Valid() {
      && 0 < digestSize <= AALG_MAX_RESULT_LEN
      && (forall s: HashState :: |digest(s)| == digestSize)
    }

    /** The digest of a message. */
    function Of(msg: Bytes): Bytes { digest(HashState(Reset, msg)) }
  }

  const Fresh := HashState(Reset, [])

  function Absorb(s: HashState, data: Bytes): HashState { s.(msg := s.msg + data) }

  function AfterFinal(s: HashState): HashState { HashState(Spent(s), []) }

  lemma AbsorbTwice(s: HashState, a: Bytes, b: Bytes)
    ensures Absorb(Absorb(s, a), b) == Absorb(s, a + b)
  {
  }
}
