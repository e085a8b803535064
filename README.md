# Car expense tracker: validators and entities

This project models the validation and domain-entity layer of a small desktop application for
tracking what a car costs to run.

- **Validators** (`utils.py`). Each one either refuses the text with a reason or returns the typed
  value it denotes.
  - The expense form passes raw text through three of them: `validate_amount` for the amount and
    for the mileage, `validate_date` and `validate_category`.
  - `validate_year` checks a year of manufacture. It is a standalone check that the application does
    not call: the car form passes a raw tuple to `save_car`, which fails on `to_dict` and reports
    the error by printing it, and the `Car` entity checks the year itself.
- **Entities** (`models.py`).
  - An `Expense` checks its amount and date once, when it is built.
  - A `Car` checks its year of manufacture against the current year.
  - A car keeps a list of expenses that callers append to. From that list it computes the cost of
    ownership per kilometre: the sum of the amounts divided by the distance from the car's mileage
    at purchase to the highest expense mileage, or 0 if none is higher.

The model is split into five modules:

- `Results` (`results.dfy`): the outcome of a check. It holds one `Error` per `ValueError` message
  of the application, plus the division by zero of the cost computation.
- `Text` (`text.dfy`): the parts of Python's string handling the validators rely on.
  - `str.isspace`, with its full character set.
  - `str.strip` and one-character `str.replace`.
  - `int()` of a digit string and `str()` of an integer.
- `Calendar` (`calendar.dfy`): `datetime.strptime(s, "%Y-%m-%d")`, written out as the regular
  expression Python builds for that format.
  - Four digits for `%Y`.
  - `1[0-2]|0[1-9]|[1-9]` for `%m`.
  - `3[01]|[12]\d|0[1-9]|[1-9]| [1-9]` for `%d`.
  - Then the check that nothing is left unconverted, then the range checks of the proleptic
    Gregorian date (years 1 to 9999, the 4/100/400 leap rule).
- `Validators` (`validators.dfy`): `validate_amount`, `validate_date`, `validate_category` and
  `validate_year`, as total functions from text to `Result`.
- `Models` (`models.dfy`):
  - `Expense` is an immutable datatype with a constructor function.
  - `Car` is a class whose `expenses` field is a sequence that `AddExpense` extends.
  - `calculate_expense` is a loop (`Car.CalculateExpense`) proved equal to the closed-form
    `CostPerKm`.
  - Order-independence, the exact division-by-zero condition and the test vector are proved about
    `CostPerKm`.

Amounts and mileages are exact `real` numbers. The current year that `Car._validate_year` reads
from the clock is a parameter `now`.

## Model

| member | source | states |
|---|---|---|
| Text.SkipSpace | utils.py:14 | the start of the stripped text: only whitespace before it from the starting index, and a non-whitespace character at it unless it is the end |
| Text.SkipSpaceBack | utils.py:14 | the end of the stripped text: only whitespace after it, and a non-whitespace character just before it unless it is the start |
| Text.SkipSpaceAt | utils.py:14 | the start index is the one position with only whitespace before it and no whitespace at it |
| Text.SkipSpaceBackAt | utils.py:14 | the end index is the one position with only whitespace after it and no whitespace just before it |
| Text.Strip | utils.py:14 | the result has no whitespace at either end |
| Text.StripSplit | utils.py:14 | the input is the stripped result with only whitespace before and after it |
| Text.StripIgnoresPadding | utils.py:14 | whitespace added around a string does not change what `strip` returns |
| Text.StripIdempotent | utils.py:64 | stripping twice is stripping once |
| Text.StripEmptyIff | utils.py:14-16 | `strip` returns the empty string exactly when the input is all whitespace |
| Text.StripOfPadded | utils.py:14 | a trimmed string with whitespace around it strips back to itself |
| Text.StripReplace | utils.py:14-19 | replacing one non-space character by another commutes with `strip` |
| Text.ReplaceConcat | utils.py:19 | `replace` distributes over concatenation |
| Text.ReplaceTrimmed | utils.py:19 | replacing a character by one that is not whitespace keeps a trimmed string trimmed |
| Text.ReplacePadded | utils.py:19 | replacing a character that is not whitespace leaves whitespace padding as it is |
| Text.IndexOf | utils.py:22 | the first occurrence of a character, or the length when it is absent |
| Text.DigitsValue | utils.py:74 | `int()` of n digits is below 10^n |
| Text.DigitsValueZero | utils.py:26 | a digit string is worth zero exactly when all its digits are '0' |
| Text.DigitsValueInjective | utils.py:74 | two digit strings of the same length with the same value are equal |
| Text.DecimalString | models.py:96 | `str(n)` is non-empty and all digits exactly when n is not negative |
| Text.NatStringRoundTrip | models.py:96-98 | `int(str(n)) == n` |
| Text.FourDigitNatString | models.py:94-96 | a number from 1000 to 9999 is written with four digits, the first being its thousands |
| Calendar.DaysInMonth | models.py:30 | 28 to 31 days; 31 in the long months, 30 in April, June, September and November; February has 29 exactly in leap years |
| Calendar.Strptime | models.py:30 | whatever `strptime` accepts is a real calendar date |
| Calendar.StrptimeOnIsoShape | utils.py:48-51 | on `DDDD-DD-DD` text, `strptime` succeeds exactly when the written fields form a real date, and returns them |
| Calendar.StrptimeTakesOneDigitFields | models.py:30 | `strptime` accepts "2025-1-5" as 5 January 2025 |
| Calendar.StrptimeTakesSpacedDay | models.py:30 | `strptime` accepts a day written as a space and a digit |
| Calendar.StrptimeDoesNotTrim | models.py:30 | `strptime` refuses a date with a leading or a trailing space |
| Calendar.StrptimeRefusesBadFields | utils.py:48-51 | a three-digit day, month 00 and year 0000 are refused |
| Validators.ParseAmount | utils.py:25 | `float` of a literal of the amount pattern is never negative |
| Validators.ValidateAmount | utils.py:5-28 | every amount returned is greater than zero |
| Validators.AmountPatternIff | utils.py:19-23 | after ',' becomes '.', the pattern accepts exactly digits with at most one separator that has digits on both sides |
| Validators.PatternIsLiteral | utils.py:19-23 | text whose replaced form fits the pattern is a decimal literal |
| Validators.DigitsLiteralPattern | utils.py:19-23 | non-empty digits fit the pattern |
| Validators.SeparatorLiteralPattern | utils.py:19-23 | digits, one point or comma and digits fit the pattern once ',' is read as '.' |
| Validators.LiteralParts | utils.py:22 | in digits, '.', digits, the first '.' separates the integer digits from the fraction digits |
| Validators.FractionPositive | utils.py:25-27 | an integer part plus a fraction is positive exactly when one of the two is |
| Validators.ParseLiteral | utils.py:22-27 | digits, '.', digits fit the pattern and convert to integer part plus fraction, positive exactly when a digit is not '0' |
| Validators.ParseAmountPositiveIff | utils.py:25-27 | a literal converts to a positive number exactly when one of its digits is not '0' |
| Validators.AmountAcceptedIff | utils.py:5-28 | an amount is accepted exactly when its stripped text is a decimal literal with a non-zero digit |
| Validators.AmountRejectsBlank | utils.py:14-16 | empty or all-whitespace input is refused as empty |
| Validators.AmountIgnoresPadding | utils.py:14 | whitespace around the amount makes no difference |
| Validators.AmountSeparatorsEquivalent | utils.py:19 | writing every ',' as '.' in the input changes nothing |
| Validators.AmountOfPattern | utils.py:19-28 | on stripped text that fits the pattern, the result is the parsed value, or a refusal when that value is not positive |
| Validators.AmountOfLiteral | utils.py:19-28 | digits, a point or comma, and digits denote integer part plus fraction, and are refused only when every digit is '0' |
| Validators.AmountWithFraction | utils.py:14-28 | the same with whitespace around the literal |
| Validators.AmountWithoutFraction | utils.py:14-28 | whole digits with whitespace around them denote their value, and are refused when all are '0' |
| Validators.LiteralAccepted | utils.py:19-28 | an accepted literal returns the value it is known to denote |
| Validators.AmountHundredAndAHalf | utils.py:9 | "100" and "50", joined by either separator, are 100.5 |
| Validators.AmountTakesEitherSeparator | utils.py:9 | "100,50" and "100.50" are both 100.5 |
| Validators.AmountTwelveAndAHalf | utils.py:22-28 | "12.5" is 12.5 |
| Validators.AmountTakesPadding | utils.py:14 | " 12.5 " is 12.5 |
| Validators.AmountRejectsZero | utils.py:26-27 | "0" is refused as not positive |
| Validators.AmountRejectsZeroFraction | utils.py:26-27 | "0.00" is refused as not positive |
| Validators.AmountRejectsSigns | utils.py:22-23 | "-5" is refused for its format |
| Validators.AmountRejectsExponent | utils.py:22-23 | "1e5" is refused for its format |
| Validators.AmountRejectsBareSeparator | utils.py:22-23 | "5." is refused for its format |
| Validators.AmountRejectsLeadingSeparator | utils.py:22-23 | ".5" is refused for its format |
| Validators.AmountRejectsThousands | utils.py:19-23 | "1,000.5" is refused for its format |
| Validators.AmountFormatRejected | utils.py:22-23 | trimmed, non-empty text outside the pattern is refused for its format |
| Validators.ValidateDate | utils.py:31-53 | an accepted date is trimmed text of the shape `DDDD-DD-DD` |
| Validators.DateAcceptedIff | utils.py:38-53 | a date is accepted exactly when its stripped text has the shape and names a real date, and the stripped text is what is returned |
| Validators.DateIdempotent | utils.py:38-53 | validating the returned date again returns it unchanged |
| Validators.DateIgnoresPadding | utils.py:38 | whitespace around the date makes no difference |
| Validators.DateOfIsoShape | utils.py:43-53 | trimmed text of the shape is returned when it names a real date and refused as impossible otherwise |
| Validators.IsoFieldsOf | utils.py:43 | ten characters with dashes at 4 and 7 and digits elsewhere have the shape, and their fields are the numbers the digits spell |
| Validators.DateExample | utils.py:43-53 | the verdict on text of the shape whose fields are known numbers |
| Validators.DateTakesLeapDay | utils.py:48-51 | 2024-02-29 is accepted |
| Validators.DateTakesLeapCentury | utils.py:48-51 | 2000-02-29 is accepted |
| Validators.DateRejectsCommonCentury | utils.py:48-51 | 1900-02-29 is refused as impossible |
| Validators.DateRejectsThirtiethOfFebruary | utils.py:48-51 | 2025-02-30 is refused as impossible |
| Validators.DateRejectsThirteenthMonth | utils.py:48-51 | 2025-13-01 is refused as impossible |
| Validators.DateRejectsShortFields | utils.py:38-44 | "2025-1-5" is refused for its format and blank input as empty |
| Validators.ValidateCategory | utils.py:56-68 | an accepted category is non-empty, with no whitespace at either end |
| Validators.CategoryAcceptedIff | utils.py:64-68 | a category is refused exactly when it is blank; otherwise it is the stripped text |
| Validators.CategoryIdempotent | utils.py:64-68 | validating a validated category returns it unchanged |
| Validators.YearPatternRange | utils.py:71-74 | text of the year pattern denotes a number from 1000 to 2999 |
| Validators.ValidateYear | utils.py:70-77 | an accepted year lies from 1885 to 2999 |
| Validators.YearRoundTrip | utils.py:70-77 | the decimal text of every year from 1885 to 2999 is accepted as that year |
| Validators.YearTextIsCanonical | utils.py:70-77 | an accepted text is the decimal text of the year returned |
| Validators.YearExamples | utils.py:70-77 | "1775" is too early, "2016" is 2016, "3000" and " 2016" have a wrong format |
| Models.ExpenseDate | models.py:26-33 | the date is kept exactly as given when `strptime` accepts it, and refused otherwise |
| Models.NewExpense | models.py:6-24 | a non-positive amount is refused first, then a date `strptime` refuses; a built expense is valid, holds the stripped category and description, and holds everything else as given |
| Models.NewExpenseOfValid | models.py:16-24 | building an expense from the fields of a built one gives it back |
| Models.NewExpenseIdempotent | models.py:21-23 | stripping the category and description beforehand changes nothing |
| Models.ExpenseToDict | models.py:35-43 | the record has exactly the fields car_id, amount, date, category, description and mileage, and no id |
| Models.ExpenseRecordRoundTrip | models.py:35-43 | the record of an expense, with its id, builds the same expense again |
| Models.ExpenseDateAcceptsFormDates | models.py:26-33 | every date `validate_date` returns is accepted unchanged by the entity |
| Models.ExpenseDateTakesShortFields | models.py:26-33 | the entity accepts "2025-1-5", which `validate_date` refuses |
| Models.ExpenseDateRefusesPadding | models.py:26-33 | the entity refuses " 2025-01-05", which it does not strip |
| Models.ValidateCarYear | models.py:89-103 | an accepted year lies from 1885 up to both the current year and 2999 |
| Models.YearNumberValue | models.py:96-98 | an integer whose decimal text fits the pattern is the value of that text |
| Models.CarYearExtendsValidateYear | models.py:89-103 | on text, the entity check is `validate_year` followed by the bound on the current year |
| Models.CarYearNumberAsText | models.py:96-98 | an integer year is judged exactly as its decimal text |
| Models.CarYearNumberAcceptedIff | models.py:89-103 | an integer year is accepted, as itself, exactly when it lies from 1885 up to both the current year and 2999 |
| Models.CarYearRejects1775 | unittests.py:52-63 | "1775" is refused as earlier than the first car |
| Models.PeakMileage | models.py:75-79 | the loop's peak is not negative, no expense mileage lies above it, and it is 0 or some expense's mileage |
| Models.PeakMileageUnique | models.py:75-79 | the peak is the only number with those three properties |
| Models.CostPerKmUndefinedIff | models.py:81 | the division fails exactly when the car's mileage is not negative, no expense lies above it, and it is 0 or an expense's mileage |
| Models.CostPerKmNoExpenses | models.py:75-81 | with no expenses the cost is 0, unless the car's mileage is 0 and the division fails |
| Models.TotalAmountRemove | models.py:76-77 | the sum is the sum without one expense plus that expense's amount |
| Models.TotalAmountPermutation | models.py:76-77 | the sum does not depend on the order of the expenses |
| Models.PeakMileagePermutation | models.py:78-79 | the peak does not depend on the order of the expenses |
| Models.CostPerKmPermutation | models.py:73-81 | the cost per kilometre does not depend on the order of the expenses |
| Models.CostPerKmTestVector | unittests.py:45-50 | bought at 35000 km with one expense of 1000 at 36000 km, the cost is 1.0 per km |
| Models.Car.constructor | models.py:57-62 | the fields are the given ones and the expense list starts empty |
| Models.Car.AddExpense | unittests.py:24 | the expense is appended at the end, nothing else changes, and the car stays valid |
| Models.Car.ToDict | models.py:64-71 | the record has exactly the fields id, model, mileage, price and year |
| Models.Car.CalculateExpense | models.py:73-81 | the loop returns the sum of the amounts divided by peak mileage minus purchase mileage, and the division error when that is 0 |
| Models.CarRecordRoundTrip | models.py:64-71 | the record of a valid car passes the year and model checks again unchanged |
| Models.NewCar | models.py:49-62 | a car is built exactly when its year is accepted, with the stripped model, the year returned by the check and an empty expense list |
| Models.ScenarioExpense | unittests.py:14-22 | the expense of the tests passes the entity's checks |
| Models.KiaRioScenario | unittests.py:5-50 | the test car with its one expense costs 1.0 per km |

## Behaviour worth knowing

- **Cost per kilometre.** `calculate_expense` fails only when the denominator is exactly zero.
  - With no expenses and a non-zero purchase mileage it returns zero.
  - When every expense mileage is below a positive purchase mileage it returns a negative number.
  - `Models.CostPerKmUndefinedIff` and `Models.CostPerKmNoExpenses` state this behaviour.
- **Car fields.** `Car.__init__` checks only the year. It strips the model and stores the mileage
  and the price as given, so `NewCar` accepts an empty model and any mileage or price.

## Left out

- `gui.py`, `storage.py`, `analytics.py` and `main.py` are not part of this model. They hold tkinter
  widgets, sqlite statements, pandas and matplotlib charts, and program start-up.
- `isinstance` checks in the validators (utils.py:11, 35, 61) cannot fail in a typed model, and
  are left out.
- `\d` in Python's regular expressions and `int()` also accept non-ASCII decimal digits. The model
  takes '0' to '9' only.
- `float(...)`: amounts and mileages are exact reals.
  - IEEE rounding, infinity from an over-long literal, NaN (which passes `amount <= 0`) and the
    `-0.0` of `0 / -m` are not modelled.
  - The order-independence of the cost per kilometre holds for exact reals. With floats the sum
    may round differently in another order.
- `datetime.now()` in `Car._validate_year` becomes the parameter `now`.
- Python lets `True` and `False` stand for the years 1 and 0. `YearArg` has no booleans, and both
  would be refused for their format anyway.
- The default `description=""` of `Expense.__init__` is the caller's concern. `NewExpense` takes
  every field.
- `__repr__` of both entities (models.py:45-46, 83-87) is string formatting only.
- Models.Car.AddExpense: requires the appended expense to be valid. In Python any object can be
  appended to the list, but every `Expense` that exists has passed its constructor.
- Every `ValueError` of the application becomes an `Err` carrying one `Error` constructor per
  message. The Russian message texts themselves are not modelled.
