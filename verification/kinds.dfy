/** The small enums of the domain layer (TypeType.java, MoveDirection.java, DependencyType). */
module Kinds {

  /** What kind of type a class file declares (TypeType.java). */
  datatype TypeType = ConcreteClass | AbstractClass | Interface {
    /** Abstract classes and interfaces are abstract; concrete classes are not. */
    predicate IsAbstract()
      ensures IsAbstract() <==> !ConcreteClass?
    {
      this != ConcreteClass
    }
  }

  /** Direction of a one-step move in the matrix (MoveDirection.java). */
  datatype MoveDirection = Up | Down {
    /** UP is -1, DOWN is +1. */
    function Delta(): (d: int)
      ensures d == -1 || d == 1
      ensures d < 0 <==> Up?
    {
      if Up? then -1 else 1
    }
  }

  /** The kind of a recorded edge; only its name is used by the modelled code. */
  datatype DependencyType = Inheritance | Ref | FieldRef
}
