/** Key items: the tokens that locks on links ask for. */
module KeyItems {

  /** A key item. Keys are objects, so two keys are the same key exactly when
      they are the same object, as with Python's default equality. */
  class KeyItem {
    const id: string
    const reusable: bool
    var used: bool

    /** A new key has not been used yet, so it can be used. */
    constructor (id: string, reusable: bool := false)
      ensures this.id == id && this.reusable == reusable && !used
      ensures CanUse()
    {
      this.id := id;
      this.reusable := reusable;
      used := false;
    }

    /** A reusable key can always be used; any other key until it is used. */
    predicate CanUse(): (r: bool)
      reads this
      ensures reusable ==> r
      ensures !reusable ==> (r <==> !used)
    {
      reusable || !used
    }
  }
}
