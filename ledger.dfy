/** The session's expense list: created empty on the first run of the
    script, appended to by the "Add to List" form, emptied by "Clear All". */
module Ledger {
  import opened Dates

  /** One row of the list, as the form stores it: the date as its text form,
      the amount, the description. */
  datatype Expense = Expense(date: string, amount: int, desc: string)

  /** Every row that can reach the list: an amount of at least 1 (the form's
      minimum), a non-empty description, a ten-character date. */
  predicate WellFormed(e: Expense)
  {
    e.amount >= 1 && e.desc != "" && |e.date| == 10
  }

  /** The part of the session state that holds the "expenses" key. */
  class Session {
    /** Whether the key "expenses" is present in the session state. */
    var hasExpenses: bool
    var expenses: seq<Expense>

    ghost predicate Valid()
      reads this
    {
      (!hasExpenses ==> expenses == []) &&
      forall i :: 0 <= i < |expenses| ==> WellFormed(expenses[i])
    }

    /** A new session: the key is absent. */
    constructor ()
      ensures Valid() && !hasExpenses
    {
      hasExpenses := false;
      expenses := [];
    }

    /** Run at the top of every script run: create the empty list only when the
        key is absent, so a list that exists is never overwritten. */
    method Init()
      requires Valid()
      modifies this
      ensures Valid() && hasExpenses
      ensures expenses == if old(hasExpenses) then old(expenses) else []
    {
      if !hasExpenses {
        expenses := [];
        hasExpenses := true;
      }
    }

    /** The form: a row is appended at the end exactly when the form was
        submitted with a non-empty description; otherwise nothing changes.
        `added` tells the caller to rerun the script. */
    method Submit(submitted: bool, date: Date, amount: int, desc: string) returns (added: bool)
      requires Valid() && hasExpenses
      requires ValidDate(date) && amount >= 1
      modifies this
      ensures Valid() && hasExpenses
      ensures added <==> submitted && desc != ""
      ensures expenses == if added then old(expenses) + [Expense(IsoFormat(date), amount, desc)] else old(expenses)
    {
      added := submitted && desc != "";
      if added {
        expenses := expenses + [Expense(IsoFormat(date), amount, desc)];
      }
    }

    /** "Clear All": the button is shown only under a non-empty list; the key
        then holds an empty list. */
    method Clear()
      requires Valid() && hasExpenses && expenses != []
      modifies this
      ensures Valid() && hasExpenses && expenses == []
    {
      expenses := [];
      hasExpenses := true;
    }
  }

  /** A run of the session as the script drives it: the list survives every
      rerun, a rejected submit leaves it as it was, an accepted one adds one
      row at the end, and Clear empties it. */
  method SessionClient(d: Date)
    requires ValidDate(d)
  {
    var s := new Session();
    s.Init();
    assert s.expenses == [];
    var added := s.Submit(true, d, 100, "Lunch");
    assert added && s.expenses == [Expense(IsoFormat(d), 100, "Lunch")];
    s.Init();
    assert s.expenses == [Expense(IsoFormat(d), 100, "Lunch")];
    added := s.Submit(true, d, 50, "");
    assert !added && |s.expenses| == 1;
    added := s.Submit(false, d, 50, "Bus");
    assert !added && |s.expenses| == 1;
    added := s.Submit(true, d, 50, "Bus");
    assert s.expenses == [Expense(IsoFormat(d), 100, "Lunch"), Expense(IsoFormat(d), 50, "Bus")];
    s.Clear();
    assert s.expenses == [];
  }
}
