/** The employee record and its two string-building helpers
    (`getFullName`, `getLocationString`).

    An `Employee` is an immutable value: the source's constructor copies its
    arguments into fields and nothing writes them afterwards, and both
    helpers only read fields, which a Dafny function cannot help but do. */
module Employees {
  import opened Options
  import Text

  datatype Name = Name(first: string, last: string)

  datatype Street = Street(number: int, name: string)

  datatype Location = Location(street: Street, city: string, state: string, postcode: string)

  datatype Picture = Picture(large: string)

  /** `dob` keeps the date-of-birth text the record arrived with; turning it
      into a calendar date is not part of this model. */
  datatype Employee = Employee(
    picture: Picture,
    name: Name,
    email: string,
    location: Location,
    dob: string,
    cell: string
  )

  /** `getFullName`: the first name, one space, the last name. */
  function FullName(e: Employee): (r: string)
    ensures |r| == |e.name.first| + 1 + |e.name.last|
    ensures e.name.first <= r
    ensures r[|e.name.first|] == ' '
    ensures r[|e.name.first| + 1..] == e.name.last
  {
    e.name.first + " " + e.name.last
  }

  /** The full name is never re-parsed by the directory, but it could be:
      when the first name holds no space, splitting at the first space gives
      both parts back. */
  lemma FullNameReadBack(e: Employee)
    requires ' ' !in e.name.first
    ensures Text.Before(FullName(e), ' ') == e.name.first
    ensures Text.After(FullName(e), ' ') == e.name.last
  {
    Text.SplitJoin(e.name.first, ' ', e.name.last);
  }

  /** `getLocationString`: "<number> <street name>, <city>, <state> <postcode>". */
  function LocationString(e: Employee): (r: string)
    ensures |r| == |Text.IntToDecimal(e.location.street.number)| + |e.location.street.name|
                   + |e.location.city| + |e.location.state| + |e.location.postcode| + 6
    ensures Text.IntToDecimal(e.location.street.number) + " " <= r
    ensures " " + e.location.postcode == r[|r| - |e.location.postcode| - 1..]
  {
    var loc := e.location;
    Text.IntToDecimal(loc.street.number) + " " + loc.street.name + ", " + loc.city + ", "
      + loc.state + " " + loc.postcode
  }

  /** Reads an address laid out as `LocationString` lays it out: the number
      up to the first space, the street name up to the next comma, the city
      up to the comma after that, then the state up to the last space and
      the postcode after it, so that a state may hold spaces. */
  function ReadLocation(s: string): (r: Option<Location>)
    ensures r.Some? ==> Text.IsNumeral(Text.Before(s, ' '))
  {
    var number := Text.Before(s, ' ');
    var afterNumber := Text.After(s, ' ');
    var afterStreet := Text.After(afterNumber, ',');
    if !Text.IsNumeral(number) || afterStreet == [] || afterStreet[0] != ' ' then None
    else
      var afterCity := Text.After(afterStreet[1..], ',');
      if afterCity == [] || afterCity[0] != ' ' then None
      else
        Some(Location(
          Street(Text.ParseInt(number), Text.Before(afterNumber, ',')),
          Text.Before(afterStreet[1..], ','),
          Text.BeforeLast(afterCity[1..], ' '),
          Text.AfterLast(afterCity[1..], ' ')))
  }

  /** The address string lays the five fields out in order: whenever the
      separators cannot be confused with field contents, reading it back
      gives the employee's location. */
  lemma LocationReadBack(e: Employee)
    requires ',' !in e.location.street.name
    requires ',' !in e.location.city
    requires ' ' !in e.location.postcode
    ensures ReadLocation(LocationString(e)) == Some(e.location)
  {
    var afterNumber, afterStreet, afterCity := LocationSplits(e);
    Text.IntRoundTrip(e.location.street.number);
    ReadLocationSteps(LocationString(e), afterNumber, afterStreet, afterCity);
  }

  /** What each split that `ReadLocation` makes yields on an address string. */
  lemma LocationSplits(e: Employee) returns (afterNumber: string, afterStreet: string, afterCity: string)
    requires ',' !in e.location.street.name
    requires ',' !in e.location.city
    requires ' ' !in e.location.postcode
    ensures Text.Before(LocationString(e), ' ') == Text.IntToDecimal(e.location.street.number)
    ensures afterNumber == Text.After(LocationString(e), ' ')
    ensures Text.Before(afterNumber, ',') == e.location.street.name
    ensures && afterStreet == Text.After(afterNumber, ',') && |afterStreet| > 0 && afterStreet[0] == ' '
            && Text.Before(afterStreet[1..], ',') == e.location.city
            && afterCity == Text.After(afterStreet[1..], ',') && |afterCity| > 0 && afterCity[0] == ' '
            && Text.BeforeLast(afterCity[1..], ' ') == e.location.state
            && Text.AfterLast(afterCity[1..], ' ') == e.location.postcode
  {
    var loc := e.location;
    var num := Text.IntToDecimal(loc.street.number);
    var tail3 := loc.state + [' '] + loc.postcode;
    var tail2 := loc.city + [','] + ([' '] + tail3);
    var tail1 := loc.street.name + [','] + ([' '] + tail2);
    assert LocationString(e) == num + [' '] + tail1;
    Text.SplitJoin(num, ' ', tail1);
    afterNumber := tail1;
    Text.SplitJoin(loc.street.name, ',', [' '] + tail2);
    afterStreet := [' '] + tail2;
    assert afterStreet[1..] == tail2;
    Text.SplitJoin(loc.city, ',', [' '] + tail3);
    afterCity := [' '] + tail3;
    assert afterCity[1..] == tail3;
    Text.SplitJoinLast(loc.state, ' ', loc.postcode);
  }

  /** Unfolds `ReadLocation` once the pieces it splits off are known. */
  lemma ReadLocationSteps(s: string, afterNumber: string, afterStreet: string, afterCity: string)
    requires Text.IsNumeral(Text.Before(s, ' '))
    requires afterNumber == Text.After(s, ' ')
    requires afterStreet == Text.After(afterNumber, ',') && |afterStreet| > 0 && afterStreet[0] == ' '
    requires afterCity == Text.After(afterStreet[1..], ',') && |afterCity| > 0 && afterCity[0] == ' '
    ensures ReadLocation(s) == Some(Location(
      Street(Text.ParseInt(Text.Before(s, ' ')), Text.Before(afterNumber, ',')),
      Text.Before(afterStreet[1..], ','),
      Text.BeforeLast(afterCity[1..], ' '),
      Text.AfterLast(afterCity[1..], ' ')))
  {
  }
}
