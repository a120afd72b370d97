/** `EnumerationStepper`: a cursor over an enumeration that exposes the
    current element without consuming it. */
module Steppers {

  class EnumerationStepper<T(0)> {
    /** Everything the underlying enumeration yields, in order. */
    const elements: seq<T>
    /** How many elements `nextElement` has handed out so far. */
    var taken: nat
    var done: bool
    var value: T

    ghost predicate Valid()
      reads this
    {
      && taken <= |elements|
      && (done ==> taken == |elements|)
      && (!done ==> 1 <= taken && value == elements[taken - 1])
    }

    /** The index of the current element; `|elements|` once done. */
    function Position(): (p: nat)
      reads this
      requires Valid()
      ensures p <= |elements|
      ensures done <==> p == |elements|
      ensures !done ==> value == elements[p]
    {
      if done then |elements| else taken - 1
    }

    /** Primes the cursor with the first element, if there is one. */
    constructor (enumeration: seq<T>)
      ensures Valid() && elements == enumeration && Position() == 0
    {
      elements := enumeration;
      taken := 0;
      done := enumeration == [];
      new;
      if !done {
        value := elements[0];
        taken := 1;
      }
    }

    /** The cursor of an absent enumeration: done from the start. */
    constructor Empty()
      ensures Valid() && elements == [] && done
    {
      elements := [];
      taken := 0;
      done := true;
    }

    /** Moves to the next element; stepping a done cursor changes nothing. */
    method Step()
      requires Valid()
      modifies this
      ensures Valid()
      ensures Position() == if old(done) then old(Position()) else old(Position()) + 1
    {
      if !done && taken < |elements| {
        value := elements[taken];
        taken := taken + 1;
      } else {
        done := true;
      }
    }

    method HasNext() returns (more: bool)
      requires Valid()
      ensures more <==> Position() < |elements|
    {
      more := !done;
    }

    /** Returns the current element and steps past it. */
    method Next() returns (x: T)
      requires Valid()
      modifies this
      ensures Valid()
      ensures !old(done) ==> x == elements[old(Position())] && Position() == old(Position()) + 1
      ensures old(done) ==> done
    {
      x := value;
      Step();
    }
  }
}
