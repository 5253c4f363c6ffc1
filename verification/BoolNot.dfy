/** `NotAssign for bool`: replacing a boolean by its negation in place. */
module BoolNot {

  /**
   * The state of the boolean after `not_assign`; the in-place update is
   * modelled as a function from the old value to the new one.
   */
  function NotAssign(b: bool): (after: bool)
    ensures after != b
  {
    !b
  }

  /** Negating twice restores the original value. */
  lemma NotAssignInvolution(b: bool)
    ensures NotAssign(NotAssign(b)) == b
  {
  }

  /** The two documented examples: false becomes true and true becomes false. */
  lemma NotAssignExamples()
    ensures NotAssign(false) == true
    ensures NotAssign(true) == false
  {
  }
}
