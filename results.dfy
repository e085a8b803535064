/** Outcomes of the validators and entity constructors: a value or the reason it was refused.
    Every refusal in the application is a Python `ValueError` with its own message, except the
    cost-per-kilometre division, which raises `ZeroDivisionError`; `Error` names each of them. */
module Results {

  datatype Option<+T> = None | Some(value: T)

  datatype Error =
    // utils.validate_amount
    | EmptyAmount            // "the amount may not be empty"
    | BadAmountFormat        // "wrong amount format"
    | NonPositiveAmount      // "the amount must be greater than zero"
    // utils.validate_date
    | EmptyDate              // "the date may not be empty"
    | BadDateFormat          // "the date must be YYYY-MM-DD"
    | ImpossibleDate         // "the date is not a real date"
    // utils.validate_category
    | EmptyCategory          // "the category may not be empty"
    // utils.validate_year and Car._validate_year
    | BadYearFormat          // "the year has a wrong format"
    | YearBeforeFirstCar     // "the first car appeared in 1885"
    | YearAfterNow           // "the year of manufacture may not be later than the current one"
    // Expense.__init__
    | NonPositiveExpenseAmount // "the number must be positive"
    | BadExpenseDate         // "Date must be in YYYY-MM-DD format"
    // Car.calculate_expense
    | ZeroDivision

  datatype Result<+T> = Ok(value: T) | Err(error: Error)
}
