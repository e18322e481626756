/**
 * AccessUtils.java: the kind of a type, read from the access_flags word of its class file
 * (table 4.1 of section 4.1 of the Java Virtual Machine Specification). The Java `int` is
 * modelled as a 32-bit vector so that `&` is the bitwise and.
 */
module AccessFlags {
  import opened Kinds

  const AccPublic: bv32 := 0x0001
  const AccFinal: bv32 := 0x0010
  const AccSuper: bv32 := 0x0020
  const AccInterface: bv32 := 0x0200
  const AccAbstract: bv32 := 0x0400

  /** getTypeFromAccessFlags: the interface bit wins over the abstract bit; neither is concrete. */
  function GetTypeFromAccessFlags(access: bv32): (t: TypeType)
    ensures t == Interface <==> access & AccInterface != 0
    ensures t == AbstractClass <==> access & AccInterface == 0 && access & AccAbstract != 0
    ensures t == ConcreteClass <==> access & (AccInterface | AccAbstract) == 0
  {
    if access & AccInterface != 0 then Interface
    else if access & AccAbstract != 0 then AbstractClass
    else ConcreteClass
  }

  /** A class file declares an abstract type exactly when its interface or abstract bit is set. */
  lemma AbstractIffFlags(access: bv32)
    ensures GetTypeFromAccessFlags(access).IsAbstract() <==> access & 0x0600 != 0
  {
  }

  /** Bits other than the interface and abstract bits never change the kind. */
  lemma OtherBitsIrrelevant(access: bv32, other: bv32)
    requires other & (AccInterface | AccAbstract) == 0
    ensures GetTypeFromAccessFlags(access | other) == GetTypeFromAccessFlags(access)
    ensures GetTypeFromAccessFlags(access & !other) == GetTypeFromAccessFlags(access)
  {
  }

  /** The mask of ACC_PUBLIC, ACC_FINAL and ACC_SUPER. */
  const PublicFinalSuper: bv32 := AccPublic | AccFinal | AccSuper

  /** In particular setting ACC_PUBLIC, ACC_FINAL and ACC_SUPER does not matter... */
  lemma SettingPublicFinalSuper(access: bv32)
    ensures GetTypeFromAccessFlags(access | PublicFinalSuper) == GetTypeFromAccessFlags(access)
  {
    OtherBitsIrrelevant(access, PublicFinalSuper);
  }

  /** ...and neither does clearing them. */
  lemma ClearingPublicFinalSuper(access: bv32)
    ensures GetTypeFromAccessFlags(access & !PublicFinalSuper) == GetTypeFromAccessFlags(access)
  {
    OtherBitsIrrelevant(access, PublicFinalSuper);
  }
}
