/** The Product table: column constraints and the string form of a row. */
module Products {

  /** `name` is a character column of at most 255 characters. */
  const NameMaxLength := 255

  /**
   * `unit_price` is a decimal with at most 12 digits, 2 of them after the
   * point. Held as a whole number of cents, its magnitude is below 10^12.
   */
  const PriceCentsBound := 1_000_000_000_000

  /** One product row; timestamps are abstract clock ticks. */
  datatype Product = Product(
    name: string,
    description: string,
    unitPriceCents: int,
    createdAt: nat,
    updatedAt: nat)

  /**
   * Text fields refuse the NUL character. (Surrogate code points, which text
   * fields refuse too, are not Dafny characters, so they cannot occur.)
   */
  predicate NoNullCharacter(s: string)
  {
    '\0' !in s
  }

  /** A name may not be blank, must fit the column and holds no NUL. */
  predicate ValidName(name: string)
  {
    0 < |name| <= NameMaxLength && NoNullCharacter(name)
  }

  /** A description may be blank; it only has to be free of NUL. */
  predicate ValidDescription(description: string)
  {
    NoNullCharacter(description)
  }

  /** At most 12 decimal digits of cents; no sign constraint. */
  predicate ValidUnitPrice(cents: int)
  {
    -PriceCentsBound < cents < PriceCentsBound
  }

  /**
   * The columns whose submitted values fail validation. The description is a
   * blank-allowed text column, so an empty description is accepted.
   */
  function ProductFieldErrors(name: string, description: string, unitPriceCents: int): (errs: set<string>)
    ensures errs <= {"name", "description", "unit_price"}
    ensures errs == {} <==> ValidName(name) && ValidDescription(description) && ValidUnitPrice(unitPriceCents)
    ensures "name" in errs <==> !ValidName(name)
    ensures "description" in errs <==> !ValidDescription(description)
    ensures "unit_price" in errs <==> !ValidUnitPrice(unitPriceCents)
    ensures description == "" ==> "description" !in errs
  {
    (if ValidName(name) then {} else {"name"})
    + (if ValidDescription(description) then {} else {"description"})
    + (if ValidUnitPrice(unitPriceCents) then {} else {"unit_price"})
  }

  /** A stored product: valid columns, and it was never saved before it was created. */
  predicate ValidProduct(p: Product)
  {
    && ValidName(p.name)
    && ValidDescription(p.description)
    && ValidUnitPrice(p.unitPriceCents)
    && p.createdAt <= p.updatedAt
  }

  /** The string form of a product is its name, hence a non-blank string of at most 255 characters. */
  function ProductStr(p: Product): (s: string)
    ensures ValidProduct(p) ==> 0 < |s| <= NameMaxLength
    ensures s == p.name
  {
    p.name
  }
}
