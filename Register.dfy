/** Registers: named slots holding the text of the last yank or delete and
    whether it was taken character-wise or line-wise. */
module Registers {
  import opened LineText

  datatype Option<T> = None | Some(value: T)

  /** How a stored text is to be put back: as characters, or as whole
      lines. */
  datatype OperationKind = CharacterWise | LineWise

  /** The contents of a register. */
  datatype RegisterValue = RegisterValue(value: string, operationKind: OperationKind)

  /** A line-wise value ends with a line break. */
  predicate WellFormed(v: RegisterValue) {
    v.operationKind == LineWise ==> |v.value| > 0 && v.value[|v.value| - 1] == NewLine
  }

  /** A register with its one-character name; it is empty until written. */
  class Register {
    const name: char
    var value: Option<RegisterValue>

    constructor (name: char)
      ensures this.name == name && value == None
    {
      this.name := name;
      value := None;
    }

    /** The stored text; the empty text while nothing is stored. */
    function StringValue(): (s: string)
      reads this
      ensures value.Some? ==> s == value.value.value
      ensures value.None? ==> s == []
    {
      match value
      case Some(v) => v.value
      case None => []
    }

    /** Overwrites whatever the register held. */
    method UpdateValue(v: RegisterValue)
      modifies this
      ensures value == Some(v)
    {
      value := Some(v);
    }
  }
}
