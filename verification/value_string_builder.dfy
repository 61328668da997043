/**
 * The growable character buffer the escaping routines append to. Only its
 * observable content is modelled: a sequence that `Append` extends by one
 * character at the end, leaving everything before it in place.
 */
module Text {

  class ValueStringBuilder {
    /** The characters appended so far, in order. */
    var chars: seq<char>

    /** A builder over a caller-supplied initial buffer starts out empty. */
    constructor ()
      ensures chars == []
    {
      chars := [];
    }

    /** The number of characters appended so far. */
    function Length(): nat
      reads this
    {
      |chars|
    }

    method Append(c: char)
      modifies this
      ensures chars == old(chars) + [c]
    {
      chars := chars + [c];
    }
  }
}
