/**
 * The tutorial `Car` class: a record of four fields, a parser from
 * comma-separated text (`from_string`), a year check (`is_valid_year`) and
 * the line `display_info` prints.
 */
module Cars {
  import opened Wrappers
  import opened Text
  import opened Decimal

  /** A car, as `Car.__init__` stores it. */
  datatype Car = Car(make: string, model: string, year: int, color: string)

  /** The two ways `from_string` raises `ValueError`. */
  datatype ParseError =
    | WrongFieldCount(count: nat)  // the unpacking into four names fails
    | BadYear(text: string)        // `int()` rejects the third field

  /** The first year the class accepts: that of the first modern car. */
  const FirstYear: int := 1886

  const LastYear: int := 2050

  /** `Car.from_string`: split on ",", exactly four parts, the third read as an integer. */
  function FromString(text: string): (r: Result<Car, ParseError>)
    ensures r.Success? <==> |Split(text, ',')| == 4 && ParseInt(Split(text, ',')[2]).Some?
    ensures |Split(text, ',')| != 4 ==> r == Failure(WrongFieldCount(|Split(text, ',')|))
    ensures r.Success? ==>
      var parts := Split(text, ',');
      r.value.make == parts[0] && r.value.model == parts[1] &&
      Some(r.value.year) == ParseInt(parts[2]) && r.value.color == parts[3]
  {
    var parts := Split(text, ',');
    if |parts| != 4 then Failure(WrongFieldCount(|parts|))
    else match ParseInt(parts[2])
      case None => Failure(BadYear(parts[2]))
      case Some(year) => Success(Car(parts[0], parts[1], year, parts[3]))
  }

  /** The text `from_string` reads for a car: the four fields joined by ",". */
  function ToCsv(car: Car): string {
    Join([car.make, car.model, IntToString(car.year), car.color], ",")
  }

  /** Round trip: a car whose text fields have no comma is read back from its comma-joined form. */
  lemma FromStringToCsv(car: Car)
    requires ',' !in car.make && ',' !in car.model && ',' !in car.color
    ensures FromString(ToCsv(car)) == Success(car)
  {
    var parts := [car.make, car.model, IntToString(car.year), car.color];
    IntToStringPlain(car.year);
    SplitJoin(parts, ',');
    ParseIntToString(car.year);
  }

  /** The documented call `from_string("Toyota,Corolla,2018,Red")`. */
  lemma FromStringExample()
    ensures FromString("Toyota,Corolla,2018,Red") == Success(Car("Toyota", "Corolla", 2018, "Red"))
  {
    var car := Car("Toyota", "Corolla", 2018, "Red");
    assert IntToString(2018) == "2018";
    assert ToCsv(car) == "Toyota,Corolla,2018,Red";
    FromStringToCsv(car);
  }

  /** `from_string` accepts a text only if it has exactly three commas. */
  lemma FromStringCommas(text: string)
    requires FromString(text).Success?
    ensures Occurrences(text, ',') == 3
  {
    SplitCount(text, ',');
  }

  /** `is_valid_year`: from the first modern car's year to 2050, both included. */
  predicate IsValidYear(year: int) {
    FirstYear <= year <= LastYear
  }

  /** The documented examples: 1999 is a valid year, 1700 is not. */
  lemma IsValidYearExamples()
    ensures IsValidYear(1999)
    ensures !IsValidYear(1700)
    ensures IsValidYear(FirstYear) && !IsValidYear(FirstYear - 1)
    ensures IsValidYear(LastYear) && !IsValidYear(LastYear + 1)
  {
  }

  /** The line `display_info` prints: year, color, make and model, separated by spaces. */
  function DisplayInfo(car: Car): string {
    Join([IntToString(car.year), car.color, car.make, car.model], " ")
  }

  /** The printed line can be read back when the text fields hold no space. */
  lemma DisplayInfoFields(car: Car)
    requires ' ' !in car.make && ' ' !in car.model && ' ' !in car.color
    ensures Split(DisplayInfo(car), ' ') == [IntToString(car.year), car.color, car.make, car.model]
    ensures ParseInt(Split(DisplayInfo(car), ' ')[0]) == Some(car.year)
  {
    IntToStringPlain(car.year);
    SplitJoin([IntToString(car.year), car.color, car.make, car.model], ' ');
    ParseIntToString(car.year);
  }
}
