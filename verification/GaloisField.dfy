/** Bytes and the arithmetic of the field they are combined in.

    The codec never multiplies bytes itself: it calls through the function
    pointers of a `gf_t` object that an external library fills in.  `Field` is
    that object.  `Lawful` is everything the codec relies on: a field with 256
    elements whose addition has characteristic two, as exclusive-or has. */
module GaloisField {

  newtype byte = x: int | 0 <= x < 256

  datatype Field = Field(add: (byte, byte) -> byte,
                         multiply: (byte, byte) -> byte,
                         divide: (byte, byte) -> byte) {

    /** The laws.  Their quantifiers are instantiated by the lemmas of this
        module only, so a proof names the law it uses. */
    ghost predicate Lawful() {
      && (forall a: byte {:trigger Law1(a)} :: Law1(a) ==>
            && add(a, 0) == a
            && add(a, a) == 0
            && multiply(a, 1) == a
            && multiply(a, 0) == 0)
      && (forall a: byte, b: byte {:trigger Law2(a, b)} :: Law2(a, b) ==>
            && add(a, b) == add(b, a)
            && multiply(a, b) == multiply(b, a)
            && (b != 0 ==> multiply(divide(a, b), b) == a))
      && (forall a: byte, b: byte, c: byte {:trigger Law3(a, b, c)} :: Law3(a, b, c) ==>
            && add(add(a, b), c) == add(a, add(b, c))
            && multiply(multiply(a, b), c) == multiply(a, multiply(b, c))
            && multiply(a, add(b, c)) == add(multiply(a, b), multiply(a, c)))
    }
  }

  ghost predicate Law1(a: byte) { true }
  ghost predicate Law2(a: byte, b: byte) { true }
  ghost predicate Law3(a: byte, b: byte, c: byte) { true }

  lemma Units(F: Field, a: byte)
    requires F.Lawful()
    ensures F.add(a, 0) == a && F.add(0, a) == a && F.add(a, a) == 0
    ensures F.multiply(a, 1) == a && F.multiply(1, a) == a
    ensures F.multiply(a, 0) == 0 && F.multiply(0, a) == 0
  {
    assert Law1(a) && Law2(a, 0) && Law2(a, 1);
  }

  lemma Commutes(F: Field, a: byte, b: byte)
    requires F.Lawful()
    ensures F.add(a, b) == F.add(b, a)
    ensures F.multiply(a, b) == F.multiply(b, a)
  {
    assert Law2(a, b);
  }

  lemma Associates(F: Field, a: byte, b: byte, c: byte)
    requires F.Lawful()
    ensures F.add(F.add(a, b), c) == F.add(a, F.add(b, c))
    ensures F.multiply(F.multiply(a, b), c) == F.multiply(a, F.multiply(b, c))
  {
    assert Law3(a, b, c);
  }

  lemma Distributes(F: Field, a: byte, b: byte, c: byte)
    requires F.Lawful()
    ensures F.multiply(a, F.add(b, c)) == F.add(F.multiply(a, b), F.multiply(a, c))
    ensures F.multiply(F.add(b, c), a) == F.add(F.multiply(b, a), F.multiply(c, a))
  {
    assert Law3(a, b, c);
    assert Law2(a, F.add(b, c)) && Law2(a, b) && Law2(a, c);
  }

  /** Adding the same byte twice changes nothing. */
  lemma AddTwice(F: Field, a: byte, b: byte)
    requires F.Lawful()
    ensures F.add(F.add(a, b), b) == a
    ensures F.add(b, F.add(b, a)) == a
  {
    Associates(F, a, b, b);
    Associates(F, b, b, a);
    Units(F, a);
    Units(F, b);
  }

  lemma AddCancels(F: Field, a: byte, b: byte, c: byte)
    requires F.Lawful()
    ensures F.add(a, c) == F.add(b, c) <==> a == b
    ensures F.add(a, b) == 0 <==> a == b
  {
    AddTwice(F, a, c);
    AddTwice(F, b, c);
    AddTwice(F, a, b);
    Units(F, b);
  }

  /** (a + b) + (c + d) == (a + c) + (b + d) */
  lemma AddShuffles(F: Field, a: byte, b: byte, c: byte, d: byte)
    requires F.Lawful()
    ensures F.add(F.add(a, b), F.add(c, d)) == F.add(F.add(a, c), F.add(b, d))
  {
    Associates(F, F.add(a, b), c, d);
    Associates(F, a, b, c);
    Commutes(F, b, c);
    Associates(F, a, c, b);
    Associates(F, F.add(a, c), b, d);
  }

  function Reciprocal(F: Field, a: byte): (r: byte) {
    F.divide(1, a)
  }

  lemma ReciprocalLaw(F: Field, a: byte)
    requires F.Lawful() && a != 0
    ensures F.multiply(Reciprocal(F, a), a) == 1
    ensures F.multiply(a, Reciprocal(F, a)) == 1
    ensures Reciprocal(F, a) != 0
  {
    assert Law2(1, a);
    Commutes(F, a, Reciprocal(F, a));
    Units(F, a);
  }

  lemma NoZeroDivisors(F: Field, a: byte, b: byte)
    requires F.Lawful()
    ensures F.multiply(a, b) == 0 <==> a == 0 || b == 0
  {
    Units(F, a);
    Units(F, b);
    if a != 0 {
      var r := Reciprocal(F, a);
      ReciprocalLaw(F, a);
      Associates(F, r, a, b);
      Units(F, r);
    }
  }

  lemma MultiplyCancels(F: Field, c: byte, a: byte, b: byte)
    requires F.Lawful() && c != 0
    ensures F.multiply(c, a) == F.multiply(c, b) <==> a == b
  {
    if F.multiply(c, a) == F.multiply(c, b) {
      Distributes(F, c, a, b);
      AddCancels(F, F.multiply(c, a), F.multiply(c, b), 0);
      NoZeroDivisors(F, c, F.add(a, b));
      AddCancels(F, a, b, 0);
    }
  }
}
