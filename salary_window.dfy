/** The salary calculator dialog: an NSS lookup that sets or clears the
    current employee, and the BASE / HONORARY salary rule. */
module SalaryWindow {
  import opened Wrappers
  import opened Models
  import Text
  import Repository

  /** What pressing OK shows: the salary, one of the warning messages, or
      an exception the slot does not catch. */
  datatype SalaryOutcome =
    | Salary(amount: real)
      /** "Employee not found." */
    | EmployeeNotFound
      /** "Years of service is required." */
    | YearsRequired
      /** "Years must be an integer." */
    | YearsNotInteger
      /** "Unknown employee type." */
    | UnknownEmployeeType
      /** `int(extra_text)` raises ValueError outside any `try`. */
    | ExtraHoursNotInteger
      /** A null hourly_rate or hours_worked reaches the arithmetic: TypeError. */
    | MissingRateOrHours

  /** Weekly salary of a BASE employee: 40 hours at the rate, plus 1% per
      year of service. */
  function BaseSalary(rate: real, years: int): real {
    (rate * 40.0) * (1.0 + years as real * 0.01)
  }

  /** Salary of an HONORARY employee: the recorded hours at the rate, plus
      0.2% per extra hour. */
  function HonorarySalary(rate: real, hours: int, extra: int): real {
    (rate * hours as real) * (1.0 + extra as real * 0.002)
  }

  /** `_on_calculate` on the current employee and the two text fields;
      `parseInt` stands for Python's `int()`. The BASE branch reads only the
      years field, the HONORARY branch only the extra-hours field, and the
      dispatch compares the stored type case-sensitively. */
  function Calculate(current: Option<Employee>, yearsText: string, extraText: string,
                     parseInt: string -> Option<int>): (r: SalaryOutcome)
    ensures r == EmployeeNotFound <==> current.None?
    ensures r == UnknownEmployeeType <==>
              current.Some? && current.value.employeeType != BASE && current.value.employeeType != HONORARY
    ensures r == YearsRequired <==>
              current.Some? && current.value.employeeType == BASE && Text.Strip(yearsText) == ""
    ensures r.Salary? ==>
              if current.value.employeeType == BASE then
                && parseInt(Text.Strip(yearsText)).Some? && current.value.hourlyRate.Some?
                && r.amount == BaseSalary(current.value.hourlyRate.value, parseInt(Text.Strip(yearsText)).value)
              else
                && current.value.employeeType == HONORARY
                && current.value.hourlyRate.Some? && current.value.hoursWorked.Some?
                && var extra := Text.Strip(extraText);
                   && (extra == "" ==>
                         r.amount == HonorarySalary(current.value.hourlyRate.value, current.value.hoursWorked.value, 0))
                   && (extra != "" ==>
                         && parseInt(extra).Some?
                         && r.amount == HonorarySalary(current.value.hourlyRate.value, current.value.hoursWorked.value,
                                                       parseInt(extra).value))
  {
    match current
    case None => EmployeeNotFound
    case Some(e) =>
      if e.employeeType == BASE then
        var years := Text.Strip(yearsText);
        if years == "" then YearsRequired
        else
          match parseInt(years)
          case None => YearsNotInteger
          case Some(y) =>
            match e.hourlyRate
            case None => MissingRateOrHours
            case Some(rate) => Salary(BaseSalary(rate, y))
      else if e.employeeType == HONORARY then
        var extra := Text.Strip(extraText);
        var extraHours := if extra == "" then Some(0) else parseInt(extra);
        match extraHours
        case None => ExtraHoursNotInteger
        case Some(x) =>
          if e.hourlyRate.None? || e.hoursWorked.None? then MissingRateOrHours
          else Salary(HonorarySalary(e.hourlyRate.value, e.hoursWorked.value, x))
      else UnknownEmployeeType
  }

  /** The employee `_on_search_employee` makes current: looked up by NSS
      only when the stripped text is all digits. */
  function SearchTarget(employees: seq<Employee>, text: string): (r: Option<Employee>)
    ensures r.Some? ==> && Text.IsDigits(Text.Strip(text))
                        && r.value.nss == Text.DigitsValue(Text.Strip(text))
                        && exists i :: 0 <= i < |employees| && employees[i] == r.value
                                       && forall j :: 0 <= j < i ==> employees[j].nss != r.value.nss
    ensures r.None? <==> !Text.IsDigits(Text.Strip(text))
                         || forall i :: 0 <= i < |employees| ==>
                              employees[i].nss != Text.DigitsValue(Text.Strip(text))
  {
    var t := Text.Strip(text);
    if Text.IsDigits(t) then Repository.FindByNss(employees, Text.DigitsValue(t)) else None
  }
  /** Typing a stored employee's NSS as `str(nss)` renders it finds the
      first employee with that NSS, as `find_employee` does. */
  lemma SearchByRenderedNss(employees: seq<Employee>, k: nat)
    requires k < |employees| && employees[k].nss >= 0
    ensures var r := SearchTarget(employees, Text.NatString(employees[k].nss));
            && r == Repository.FindByNss(employees, employees[k].nss)
            && r.Some? && r.value.nss == employees[k].nss
  {
    var n := employees[k].nss;
    Text.StripDigits(Text.NatString(n));
    Text.DigitsValueOfNatString(n);
  }


  /** The dialog's state: the current employee, the three read-only labels
      ("-" when cleared; the rate label holds the amount it formats), the
      two inputs with their enabled flags, and the result label. */
  class Window {
    var currentEmployee: Option<Employee>
    var nameLabel: string
    var typeLabel: string
    var rateLabel: Option<real>
    var yearsInput: string
    var yearsEnabled: bool
    var extraHoursInput: string
    var extraHoursEnabled: bool
    var resultLabel: Option<real>

    constructor ()
      ensures currentEmployee.None? && nameLabel == "-" && typeLabel == "-" && rateLabel.None?
      ensures yearsInput == "" && extraHoursInput == "" && yearsEnabled && extraHoursEnabled
      ensures resultLabel.None?
    {
      currentEmployee := None;
      nameLabel := "-";
      typeLabel := "-";
      rateLabel := None;
      yearsInput := "";
      yearsEnabled := true;
      extraHoursInput := "";
      extraHoursEnabled := true;
      resultLabel := None;
    }

    /** `_clear_employee_info`. */
    method ClearEmployeeInfo()
      modifies this
      ensures currentEmployee.None? && nameLabel == "-" && typeLabel == "-" && rateLabel.None?
      ensures yearsInput == old(yearsInput) && yearsEnabled == old(yearsEnabled)
      ensures extraHoursInput == old(extraHoursInput) && extraHoursEnabled == old(extraHoursEnabled)
      ensures resultLabel == old(resultLabel)
    {
      currentEmployee := None;
      nameLabel := "-";
      typeLabel := "-";
      rateLabel := None;
    }

    /** The part of `_on_search_employee` that shows a found employee: the
        name and type labels, then the rate label (whose formatting raises
        when the rate is missing), then the inputs its type uses. */
    method ShowEmployee(e: Employee) returns (raised: bool)
      modifies this
      ensures currentEmployee == Some(e) && resultLabel == old(resultLabel)
      ensures nameLabel == e.firstName + " " + e.lastNameF + " " + e.lastNameM
      ensures typeLabel == e.employeeType
      ensures raised == e.hourlyRate.None?
      ensures raised ==> rateLabel == old(rateLabel)
      ensures !raised ==> rateLabel == e.hourlyRate
      ensures !raised && e.employeeType == BASE ==>
                yearsEnabled && !extraHoursEnabled && extraHoursInput == ""
                && yearsInput == old(yearsInput)
      ensures !raised && e.employeeType == HONORARY ==>
                !yearsEnabled && yearsInput == "" && extraHoursEnabled
                && extraHoursInput == old(extraHoursInput)
      ensures raised || (e.employeeType != BASE && e.employeeType != HONORARY) ==>
                && yearsInput == old(yearsInput) && yearsEnabled == old(yearsEnabled)
                && extraHoursInput == old(extraHoursInput)
                && extraHoursEnabled == old(extraHoursEnabled)
    {
      currentEmployee := Some(e);
      nameLabel := e.firstName + " " + e.lastNameF + " " + e.lastNameM;
      typeLabel := e.employeeType;
      if e.hourlyRate.None? {
        return true;
      }
      rateLabel := e.hourlyRate;
      raised := false;
      if e.employeeType == BASE {
        yearsEnabled := true;
        extraHoursEnabled := false;
        extraHoursInput := "";
      } else if e.employeeType == HONORARY {
        yearsEnabled := false;
        yearsInput := "";
        extraHoursEnabled := true;
      }
    }

    /** `_on_search_employee` over the employee table. The current employee
        becomes the search target; a found employee fills the labels and
        enables the input its type uses, clearing the other. An employee
        without an hourly rate makes the rate label's formatting raise
        (`raised`) after the employee, name and type are already set. */
    method OnSearchEmployee(employees: seq<Employee>, text: string) returns (raised: bool)
      modifies this
      ensures currentEmployee == SearchTarget(employees, text)
      ensures resultLabel == old(resultLabel)
      ensures currentEmployee.None? ==>
                && !raised && nameLabel == "-" && typeLabel == "-" && rateLabel.None?
                && yearsInput == old(yearsInput) && yearsEnabled == old(yearsEnabled)
                && extraHoursInput == old(extraHoursInput) && extraHoursEnabled == old(extraHoursEnabled)
      ensures currentEmployee.Some? ==>
                var e := currentEmployee.value;
                && nameLabel == e.firstName + " " + e.lastNameF + " " + e.lastNameM
                && typeLabel == e.employeeType
                && raised == e.hourlyRate.None?
                && (raised ==> rateLabel == old(rateLabel))
                && (!raised ==> rateLabel == e.hourlyRate)
                && (!raised && e.employeeType == BASE ==>
                      yearsEnabled && !extraHoursEnabled && extraHoursInput == ""
                      && yearsInput == old(yearsInput))
                && (!raised && e.employeeType == HONORARY ==>
                      !yearsEnabled && yearsInput == "" && extraHoursEnabled
                      && extraHoursInput == old(extraHoursInput))
                && (raised || (e.employeeType != BASE && e.employeeType != HONORARY) ==>
                      && yearsInput == old(yearsInput) && yearsEnabled == old(yearsEnabled)
                      && extraHoursInput == old(extraHoursInput)
                      && extraHoursEnabled == old(extraHoursEnabled))
    {
      var t := Text.Strip(text);
      if !Text.IsDigits(t) {
        ClearEmployeeInfo();
        return false;
      }
      var employee := Repository.FindByNss(employees, Text.DigitsValue(t));
      if employee.None? {
        ClearEmployeeInfo();
        return false;
      }
      raised := ShowEmployee(employee.value);
    }

    /** `_on_calculate`: shows the salary in the result label, or leaves it
        as it was when a warning or an exception ends the slot. */
    method OnCalculate(parseInt: string -> Option<int>) returns (outcome: SalaryOutcome)
      modifies this
      ensures outcome == Calculate(currentEmployee, yearsInput, extraHoursInput, parseInt)
      ensures resultLabel == (if outcome.Salary? then Some(outcome.amount) else old(resultLabel))
      ensures currentEmployee == old(currentEmployee)
      ensures yearsInput == old(yearsInput) && extraHoursInput == old(extraHoursInput)
    {
      outcome := Calculate(currentEmployee, yearsInput, extraHoursInput, parseInt);
      if outcome.Salary? {
        resultLabel := Some(outcome.amount);
      }
    }
  }

  // -----------------------------------------------------------------------
  // Properties of the rule

  /** A BASE employee with a rate and integer years gets the base formula,
      whatever the extra-hours field holds. */
  lemma BaseSalaryRule(e: Employee, yearsText: string, extraText: string,
                       parseInt: string -> Option<int>, y: int)
    requires e.employeeType == BASE && e.hourlyRate.Some?
    requires Text.Strip(yearsText) != "" && parseInt(Text.Strip(yearsText)) == Some(y)
    ensures Calculate(Some(e), yearsText, extraText, parseInt)
            == Salary((e.hourlyRate.value * 40.0) * (1.0 + y as real * 0.01))
  {
  }

  /** Years are only checked for being an integer: text that does not parse
      is rejected, and any integer, negative ones included, is used. */
  lemma BaseYearsOnlyParsed(e: Employee, yearsText: string, extraText: string,
                            parseInt: string -> Option<int>)
    requires e.employeeType == BASE && Text.Strip(yearsText) != ""
    ensures parseInt(Text.Strip(yearsText)).None? <==>
              Calculate(Some(e), yearsText, extraText, parseInt) == YearsNotInteger
  {
  }

  /** An HONORARY employee with rate and hours gets the honorary formula;
      a blank extra-hours field counts as 0, and the years field is not
      read. */
  lemma HonorarySalaryRule(e: Employee, yearsText: string, extraText: string,
                           parseInt: string -> Option<int>)
    requires e.employeeType == HONORARY && e.hourlyRate.Some? && e.hoursWorked.Some?
    ensures Text.Strip(extraText) == "" ==>
              Calculate(Some(e), yearsText, extraText, parseInt)
              == Salary(e.hourlyRate.value * e.hoursWorked.value as real)
    ensures forall x :: Text.Strip(extraText) != "" && parseInt(Text.Strip(extraText)) == Some(x) ==>
              Calculate(Some(e), yearsText, extraText, parseInt)
              == Salary((e.hourlyRate.value * e.hoursWorked.value as real) * (1.0 + x as real * 0.002))
    ensures Text.Strip(extraText) != "" && parseInt(Text.Strip(extraText)).None? ==>
              Calculate(Some(e), yearsText, extraText, parseInt) == ExtraHoursNotInteger
  {
    var rate, hours := e.hourlyRate.value, e.hoursWorked.value;
    if Text.Strip(extraText) == "" {
      assert Calculate(Some(e), yearsText, extraText, parseInt) == Salary(HonorarySalary(rate, hours, 0));
      assert HonorarySalary(rate, hours, 0) == rate * hours as real;
    }
  }

  /** The dispatch is case-sensitive: a type stored in lower case is an
      unknown type here, though registration accepts it case-insensitively. */
  lemma LowerCaseTypeIsUnknown(e: Employee, yearsText: string, extraText: string,
                               parseInt: string -> Option<int>)
    requires e.employeeType == "base" || e.employeeType == "honorary"
    ensures Calculate(Some(e), yearsText, extraText, parseInt) == UnknownEmployeeType
  {
  }

  /** With a non-negative rate, more years of service never lower a BASE
      salary, and more extra hours never lower an HONORARY one. */
  lemma SalaryMonotone(rate: real, hours: int, a: int, b: int)
    requires rate >= 0.0 && hours >= 0 && a <= b
    ensures BaseSalary(rate, a) <= BaseSalary(rate, b)
    ensures HonorarySalary(rate, hours, a) <= HonorarySalary(rate, hours, b)
  {
    var w := rate * 40.0;
    assert w >= 0.0;
    assert BaseSalary(rate, b) - BaseSalary(rate, a) == w * ((b - a) as real * 0.01);
    var h := rate * hours as real;
    assert h >= 0.0;
    assert HonorarySalary(rate, hours, b) - HonorarySalary(rate, hours, a) == h * ((b - a) as real * 0.002);
  }

  /** Worked examples: BASE at 150.0 with 5 years earns 6300.0; HONORARY at
      100.0 with 20 hours and 10 extra hours earns 2040.0. */
  lemma WorkedExamples()
    ensures BaseSalary(150.0, 5) == 6300.0
    ensures HonorarySalary(100.0, 20, 10) == 2040.0
  {
  }
}
