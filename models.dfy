/** The domain entities (models.py): an expense, which is checked once when it is built and never
    changes afterwards, and a car, whose list of expenses grows as callers append to it and from
    which the cost of ownership per kilometre is computed. */
module Models {
  import opened Results
  import opened Text
  import opened Calendar
  import opened Validators

  /** A value of a record as it is stored: `to_dict` maps field names to these. */
  datatype Value = IntValue(i: int) | RealValue(x: real) | TextValue(s: string)

  // ---------------------------------------------------------------------------------------
  // Expense

  datatype Expense = Expense(
    id: int,
    carId: int,
    amount: real,
    category: string,
    date: string,
    mileage: real,
    description: string)
  {
    /** What every expense that got past `Expense.__init__` satisfies. */
    predicate Valid()
    {
      amount > 0.0 && IsTrimmed(category) && IsTrimmed(description) && Strptime(date).Some?
    }
  }

  /** `Expense._validate_date`: the string is kept exactly as given when
      `datetime.strptime(date, "%Y-%m-%d")` succeeds on it, and refused otherwise. */
  function ExpenseDate(date: string): (r: Result<string>)
    ensures r.Ok? <==> Strptime(date).Some?
    ensures r.Ok? ==> r.value == date
    ensures r.Err? ==> r.error == BadExpenseDate
  {
    if Strptime(date).Some? then Ok(date) else Err(BadExpenseDate)
  }

  /** `Expense.__init__`: refuse an amount that is not positive, then a date `strptime` refuses;
      store the category and the description stripped and everything else as given. */
  function NewExpense(id: int, carId: int, amount: real, category: string, date: string,
                      mileage: real, description: string): (r: Result<Expense>)
    ensures amount <= 0.0 ==> r == Err(NonPositiveExpenseAmount)
    ensures amount > 0.0 && Strptime(date).None? ==> r == Err(BadExpenseDate)
    ensures r.Ok? <==> amount > 0.0 && Strptime(date).Some?
    ensures r.Ok? ==> r.value.Valid()
    ensures r.Ok? ==> r.value.category == Strip(category) && r.value.description == Strip(description)
    ensures r.Ok? ==> r.value.date == date && r.value.amount == amount && r.value.mileage == mileage
    ensures r.Ok? ==> r.value.id == id && r.value.carId == carId
  {
    if amount <= 0.0 then Err(NonPositiveExpenseAmount)
    else
      var category := Strip(category);
      match ExpenseDate(date)
      case Err(e) => Err(e)
      case Ok(d) => Ok(Expense(id, carId, amount, category, d, mileage, Strip(description)))
  }

  /** Building an expense from the fields of one that was already built gives it back. */
  lemma NewExpenseOfValid(e: Expense)
    requires e.Valid()
    ensures NewExpense(e.id, e.carId, e.amount, e.category, e.date, e.mileage, e.description) == Ok(e)
  {
    StripTrimmed(e.category);
    StripTrimmed(e.description);
  }

  /** Stripping the text fields a second time changes nothing. */
  lemma NewExpenseIdempotent(id: int, carId: int, amount: real, category: string, date: string,
                             mileage: real, description: string)
    ensures NewExpense(id, carId, amount, Strip(category), date, mileage, Strip(description))
         == NewExpense(id, carId, amount, category, date, mileage, description)
  {
    StripIdempotent(category);
    StripIdempotent(description);
  }

  /** The field names of `Expense.to_dict`. */
  const ExpenseFields: set<string> := {"car_id", "amount", "date", "category", "description", "mileage"}

  /** `Expense.to_dict`: every field except the identifier. */
  function ExpenseToDict(e: Expense): (d: map<string, Value>)
    ensures d.Keys == ExpenseFields && "id" !in d
  {
    map["car_id" := IntValue(e.carId), "amount" := RealValue(e.amount), "date" := TextValue(e.date),
        "category" := TextValue(e.category), "description" := TextValue(e.description),
        "mileage" := RealValue(e.mileage)]
  }

  /** The record of a valid expense, with its identifier, builds the same expense again: the
      record loses nothing but the identifier. */
  lemma ExpenseRecordRoundTrip(e: Expense)
    requires e.Valid()
    ensures var d := ExpenseToDict(e);
      && d["car_id"].IntValue? && d["amount"].RealValue? && d["mileage"].RealValue?
      && d["category"].TextValue? && d["date"].TextValue? && d["description"].TextValue?
      && NewExpense(e.id, d["car_id"].i, d["amount"].x, d["category"].s, d["date"].s,
                    d["mileage"].x, d["description"].s) == Ok(e)
  {
    NewExpenseOfValid(e);
  }

  /** Every date the input form lets through is also accepted by the entity, unchanged. */
  lemma ExpenseDateAcceptsFormDates(s: string)
    requires ValidateDate(s).Ok?
    ensures ExpenseDate(ValidateDate(s).value) == Ok(ValidateDate(s).value)
  {
    DateAcceptedIff(s);
    StrptimeOnIsoShape(Strip(s));
  }

  /** The entity's check is not the form's: it takes one-digit fields, which the form refuses. */
  lemma ExpenseDateTakesShortFields()
    ensures ExpenseDate("2025-1-5") == Ok("2025-1-5")
    ensures ValidateDate("2025-1-5") == Err(BadDateFormat)
  {
    StrptimeTakesOneDigitFields();
    DateRejectsShortFields();
  }

  /** And it does not strip: a date with a leading space is refused. */
  lemma ExpenseDateRefusesPadding()
    ensures ExpenseDate(" 2025-01-05") == Err(BadExpenseDate)
  {
    StrptimeDoesNotTrim();
  }

  // ---------------------------------------------------------------------------------------
  // Car year

  /** `_validate_year` takes a string or an integer. */
  datatype YearArg = YearText(text: string) | YearNumber(number: int)

  /** `str(year)`. */
  function YearString(y: YearArg): string
  {
    match y
    case YearText(t) => t
    case YearNumber(n) => DecimalString(n)
  }

  /** `Car._validate_year` with the current year `now`: `str(year)` must match `^[1-2]\d{3}$`;
      `int(year)` may be neither earlier than 1885 nor later than `now`. */
  function ValidateCarYear(y: YearArg, now: int): (r: Result<int>)
    ensures r.Ok? ==> FirstCarYear <= r.value <= now && r.value <= 2999
  {
    var s := YearString(y);
    if !IsYearPattern(s) then Err(BadYearFormat)
    else
      YearPatternRange(s);
      var year := if y.YearNumber? then y.number else DigitsValue(s);
      assert year == DigitsValue(s) by {
        if y.YearNumber? {
          YearNumberValue(y.number);
        }
      }
      if year < FirstCarYear then Err(YearBeforeFirstCar)
      else if year > now then Err(YearAfterNow)
      else Ok(year)
  }

  /** An integer whose decimal text matches the year pattern is the value of that text. */
  lemma YearNumberValue(n: int)
    requires IsYearPattern(DecimalString(n))
    ensures n >= 0 && DigitsValue(DecimalString(n)) == n
  {
    NatStringRoundTrip(n);
  }

  /** On text, the entity's check is `validate_year` followed by the upper bound. */
  lemma CarYearExtendsValidateYear(s: string, now: int)
    ensures ValidateCarYear(YearText(s), now)
         == match ValidateYear(s)
            case Err(e) => Err(e)
            case Ok(v) => if v > now then Err(YearAfterNow) else Ok(v)
  {
  }

  /** An integer is judged exactly as its decimal text is. */
  lemma CarYearNumberAsText(n: int, now: int)
    ensures ValidateCarYear(YearNumber(n), now) == ValidateCarYear(YearText(DecimalString(n)), now)
  {
    if IsYearPattern(DecimalString(n)) {
      YearNumberValue(n);
    }
  }

  /** The integer years accepted are exactly those from 1885 up to both `now` and 2999. */
  lemma CarYearNumberAcceptedIff(n: int, now: int)
    ensures ValidateCarYear(YearNumber(n), now).Ok? <==> FirstCarYear <= n <= now && n <= 2999
    ensures ValidateCarYear(YearNumber(n), now).Ok? ==> ValidateCarYear(YearNumber(n), now).value == n
  {
    if FirstCarYear <= n <= 2999 {
      YearRoundTrip(n);
      CarYearNumberAsText(n, now);
    }
    if IsYearPattern(DecimalString(n)) {
      YearNumberValue(n);
    }
  }

  /** The test case of a car from before the first automobile. */
  lemma CarYearRejects1775(now: int)
    ensures ValidateCarYear(YearText("1775"), now) == Err(YearBeforeFirstCar)
  {
    YearExamples();
  }

  // ---------------------------------------------------------------------------------------
  // Cost per kilometre

  /** The sum of the amounts, as the loop of `calculate_expense` adds them up. */
  function TotalAmount(es: seq<Expense>): real
  {
    if es == [] then 0.0 else TotalAmount(es[..|es| - 1]) + es[|es| - 1].amount
  }

  /** The accumulator that starts at 0 and is raised to each larger mileage. It is the largest
      mileage when one is positive, and 0 otherwise. */
  function PeakMileage(es: seq<Expense>): (m: real)
    ensures m >= 0.0
    ensures forall i :: 0 <= i < |es| ==> es[i].mileage <= m
    ensures m == 0.0 || exists i :: 0 <= i < |es| && es[i].mileage == m
  {
    if es == [] then 0.0
    else
      var p := PeakMileage(es[..|es| - 1]);
      var last := es[|es| - 1].mileage;
      assert forall i :: 0 <= i < |es| - 1 ==> es[i] == es[..|es| - 1][i];
      if last > p then last else p
  }

  /** `calculate_expense`: the total amount divided by the distance from the car's mileage at
      purchase to the peak mileage, refused when that distance is zero. */
  function CostPerKm(es: seq<Expense>, carMileage: real): Result<real>
  {
    var distance := PeakMileage(es) - carMileage;
    if distance == 0.0 then Err(ZeroDivision) else Ok(TotalAmount(es) / distance)
  }

  /** The peak mileage is the one number with its three properties. */
  lemma PeakMileageUnique(es: seq<Expense>, m: real)
    requires m >= 0.0
    requires forall i :: 0 <= i < |es| ==> es[i].mileage <= m
    requires m == 0.0 || exists i :: 0 <= i < |es| && es[i].mileage == m
    ensures PeakMileage(es) == m
  {
    var p := PeakMileage(es);
    if m != 0.0 {
      var i :| 0 <= i < |es| && es[i].mileage == m;
      assert m <= p;
    }
    if p != 0.0 {
      var j :| 0 <= j < |es| && es[j].mileage == p;
      assert p <= m;
    }
  }

  /** The division is refused exactly when the car's own mileage has the three properties of the
      peak: no expense lies beyond it, and it is zero or some expense lies exactly on it. */
  lemma CostPerKmUndefinedIff(es: seq<Expense>, carMileage: real)
    ensures CostPerKm(es, carMileage).Err?
        <==> && carMileage >= 0.0
             && (forall i :: 0 <= i < |es| ==> es[i].mileage <= carMileage)
             && (carMileage == 0.0 || exists i :: 0 <= i < |es| && es[i].mileage == carMileage)
  {
    if && carMileage >= 0.0
       && (forall i :: 0 <= i < |es| ==> es[i].mileage <= carMileage)
       && (carMileage == 0.0 || exists i :: 0 <= i < |es| && es[i].mileage == carMileage)
    {
      PeakMileageUnique(es, carMileage);
    }
  }

  /** Without expenses the cost is zero, unless the car's mileage is zero too. */
  lemma CostPerKmNoExpenses(carMileage: real)
    ensures CostPerKm([], carMileage) == if carMileage == 0.0 then Err(ZeroDivision) else Ok(0.0)
  {
  }

  /** The sum with one expense taken out. */
  lemma {:induction false} TotalAmountRemove(es: seq<Expense>, k: nat)
    requires k < |es|
    ensures TotalAmount(es) == TotalAmount(es[..k] + es[k + 1..]) + es[k].amount
    decreases |es|
  {
    var n := |es| - 1;
    if k < n {
      var init := es[..n];
      TotalAmountRemove(init, k);
      var rest := es[..k] + es[k + 1..];
      assert rest[..|rest| - 1] == init[..k] + init[k + 1..];
      assert rest[|rest| - 1] == es[n];
    } else {
      assert es[..k] + es[k + 1..] == es[..n];
    }
  }

  /** The sum does not depend on the order of the expenses. */
  lemma {:induction false} TotalAmountPermutation(es: seq<Expense>, fs: seq<Expense>)
    requires multiset(es) == multiset(fs)
    ensures TotalAmount(es) == TotalAmount(fs)
    decreases |es|
  {
    if es != [] {
      var n := |es| - 1;
      var last := es[n];
      assert es == es[..n] + [last];
      assert last in multiset(fs);
      var k :| 0 <= k < |fs| && fs[k] == last;
      assert fs == fs[..k] + [last] + fs[k + 1..];
      assert multiset(fs) == multiset(fs[..k] + fs[k + 1..]) + multiset{last} by {
        assert multiset(fs) == multiset(fs[..k]) + multiset{last} + multiset(fs[k + 1..]);
      }
      assert multiset(es) == multiset(es[..n]) + multiset{last};
      assert multiset(es[..n]) == multiset(es) - multiset{last};
      assert multiset(fs[..k] + fs[k + 1..]) == multiset(fs) - multiset{last};
      TotalAmountPermutation(es[..n], fs[..k] + fs[k + 1..]);
      TotalAmountRemove(fs, k);
    } else {
      assert |fs| == |multiset(fs)| == 0;
    }
  }

  /** Nor does the peak mileage. */
  lemma PeakMileagePermutation(es: seq<Expense>, fs: seq<Expense>)
    requires multiset(es) == multiset(fs)
    ensures PeakMileage(es) == PeakMileage(fs)
  {
    var m := PeakMileage(es);
    forall j | 0 <= j < |fs|
      ensures fs[j].mileage <= m
    {
      assert fs[j] in multiset(es);
    }
    if m != 0.0 {
      var i :| 0 <= i < |es| && es[i].mileage == m;
      assert es[i] in multiset(fs);
      var j :| 0 <= j < |fs| && fs[j] == es[i];
    }
    PeakMileageUnique(fs, m);
  }

  /** The cost per kilometre does not depend on the order in which expenses were added. */
  lemma CostPerKmPermutation(es: seq<Expense>, fs: seq<Expense>, carMileage: real)
    requires multiset(es) == multiset(fs)
    ensures CostPerKm(es, carMileage) == CostPerKm(fs, carMileage)
  {
    TotalAmountPermutation(es, fs);
    PeakMileagePermutation(es, fs);
  }

  /** The test case: bought at 35000 km, one expense of 1000 at 36000 km, one unit per km. */
  lemma CostPerKmTestVector(e: Expense)
    requires e.amount == 1000.0 && e.mileage == 36000.0
    ensures CostPerKm([e], 35000.0) == Ok(1.0)
  {
    assert [e][..0] == [];
    assert TotalAmount([e]) == 1000.0;
    assert PeakMileage([e]) == 36000.0;
  }

  // ---------------------------------------------------------------------------------------
  // Car

  class Car {
    var id: int
    var model: string
    var year: int
    var mileage: real
    var price: real
    var expenses: seq<Expense>

    /** What holds of every car built by `Car.__init__` and extended by appending expenses. */
    ghost predicate Valid()
      reads this
    {
      && IsTrimmed(model)
      && FirstCarYear <= year <= 2999
      && forall i :: 0 <= i < |expenses| ==> expenses[i].Valid()
    }

    /** The assignments of `Car.__init__`, once the model is stripped and the year checked. */
    constructor (id: int, model: string, year: int, mileage: real, price: real)
      requires IsTrimmed(model) && FirstCarYear <= year <= 2999
      ensures this.id == id && this.model == model && this.year == year
      ensures this.mileage == mileage && this.price == price && expenses == []
      ensures Valid()
    {
      this.id := id;
      this.model := model;
      this.year := year;
      this.mileage := mileage;
      this.price := price;
      this.expenses := [];
    }

    /** `car.expenses.append(expense)`. */
    method AddExpense(e: Expense)
      requires Valid() && e.Valid()
      modifies this
      ensures expenses == old(expenses) + [e]
      ensures id == old(id) && model == old(model) && year == old(year)
      ensures mileage == old(mileage) && price == old(price)
      ensures Valid()
    {
      expenses := expenses + [e];
    }

    /** The field names of `Car.to_dict`. */
    static const CarFields: set<string> := {"id", "model", "mileage", "price", "year"}

    /** `Car.to_dict`: every field except the expenses. */
    function ToDict(): (d: map<string, Value>)
      reads this
      ensures d.Keys == CarFields && "expenses" !in d
    {
      map["id" := IntValue(id), "model" := TextValue(model), "mileage" := RealValue(mileage),
          "price" := RealValue(price), "year" := IntValue(year)]
    }

    /** `calculate_expense`: one pass that adds up the amounts and raises the peak mileage. */
    method CalculateExpense() returns (r: Result<real>)
      ensures r == CostPerKm(expenses, mileage)
    {
      var currentMileage := 0.0;
      var sumAmount := 0.0;
      for i := 0 to |expenses|
        invariant sumAmount == TotalAmount(expenses[..i])
        invariant currentMileage == PeakMileage(expenses[..i])
      {
        assert expenses[..i + 1][..i] == expenses[..i];
        sumAmount := sumAmount + expenses[i].amount;
        if expenses[i].mileage > currentMileage {
          currentMileage := expenses[i].mileage;
        }
      }
      assert expenses[..|expenses|] == expenses;
      var distance := currentMileage - mileage;
      if distance == 0.0 {
        r := Err(ZeroDivision);
      } else {
        r := Ok(sumAmount / distance);
      }
    }
  }

  /** The record of a valid car built no later than `now` passes the constructor's checks again
      with the same model and year. */
  lemma CarRecordRoundTrip(c: Car, now: int)
    requires c.Valid() && c.year <= now
    ensures var d := c.ToDict();
      && d["model"].TextValue? && d["year"].IntValue?
      && Strip(d["model"].s) == c.model
      && ValidateCarYear(YearNumber(d["year"].i), now) == Ok(c.year)
  {
    StripTrimmed(c.model);
    CarYearNumberAcceptedIff(c.year, now);
  }

  /** `Car.__init__`: strip the model and check the year against the current year `now`. */
  method NewCar(id: int, model: string, year: YearArg, mileage: real, price: real, now: int)
    returns (r: Result<Car>)
    ensures r.Err? <==> ValidateCarYear(year, now).Err?
    ensures r.Err? ==> r.error == ValidateCarYear(year, now).error
    ensures r.Ok? ==> fresh(r.value) && r.value.Valid()
    ensures r.Ok? ==> r.value.model == Strip(model) && r.value.year == ValidateCarYear(year, now).value
    ensures r.Ok? ==> r.value.id == id && r.value.mileage == mileage && r.value.price == price
    ensures r.Ok? ==> r.value.expenses == []
  {
    var m := Strip(model);
    match ValidateCarYear(year, now)
    case Err(e) =>
      r := Err(e);
    case Ok(y) =>
      var car := new Car(id, m, y, mileage, price);
      r := Ok(car);
  }

  /** The expense of the tests passes the entity's checks. */
  lemma ScenarioExpense()
    ensures NewExpense(0, 0, 1000.0, "Другое", "2025-12-01", 36000.0, "тест").Ok?
  {
    DateExample("2025-12-01", 2025, 12, 1);
    ExpenseDateAcceptsFormDates("2025-12-01");
  }

  /** The scenario of the tests: a 2016 Kia Rio bought at 35000 km, one expense of 1000 at
      36000 km, costs one unit per kilometre. */
  method KiaRioScenario(now: int) returns (r: Result<real>)
    requires now >= 2016
    ensures r == Ok(1.0)
  {
    YearExamples();
    CarYearExtendsValidateYear("2016", now);
    var car := NewCar(0, "Kia Rio", YearText("2016"), 35000.0, 1200000.0, now);
    var c := car.value;
    ScenarioExpense();
    var e := NewExpense(0, c.id, 1000.0, "Другое", "2025-12-01", 36000.0, "тест").value;
    c.AddExpense(e);
    r := c.CalculateExpense();
    CostPerKmTestVector(e);
  }
}
