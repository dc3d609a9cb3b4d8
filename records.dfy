/** The expense record, id allocation, the add path and the input validator. */
module Records {
  import opened Wrappers
  import opened PyText

  /** One expense. `pricey` is stored when the record is made and never recomputed. */
  datatype Expense = Expense(id: int, description: string, value: real, pricey: bool)

  /** The `ValueError`s and the `TypeError` raised on the add path and by the validator. */
  datatype Error =
    | AmountNotPositive     // 'The amount must be positive.'
    | DescriptionRequired   // 'Description is required.' (record construction)
    | DescriptionEmpty      // 'Description cannot be empty.' (validator)
    | InvalidType           // 'Invalid type.'

  /** Amounts at or above this are "big". */
  const BigThreshold: real := 1000.0

  predicate IsPricey(value: real) {
    value >= BigThreshold
  }

  /** The dataclass constructor with its `__post_init__` check: only the empty string is refused. */
  function NewExpense(id: int, description: string, value: real, pricey: bool): Result<Expense, Error> {
    if description == "" then Failure(DescriptionRequired)
    else Success(Expense(id, description, value, pricey))
  }

  /** Construction fails exactly on the empty description; a blank one is accepted as it is. */
  lemma NewExpenseChecksOnlyEmptiness(id: int, description: string, value: real, pricey: bool)
    ensures NewExpense(id, description, value, pricey).Failure? <==> description == ""
    ensures NewExpense(id, description, value, pricey).Failure? ==>
      NewExpense(id, description, value, pricey).error == DescriptionRequired
    ensures NewExpense(id, description, value, pricey).Success? ==>
      NewExpense(id, description, value, pricey).value == Expense(id, description, value, pricey)
    ensures NewExpense(id, " ", value, pricey).Success?
  {
  }

  // ---------------------------------------------------------------- ids

  /** The set of ids in use. */
  function Ids(es: seq<Expense>): set<int> {
    set e | e in es :: e.id
  }

  predicate UniqueIds(es: seq<Expense>) {
    forall i, j :: 0 <= i < j < |es| ==> es[i].id != es[j].id
  }

  lemma IdsConcat(a: seq<Expense>, b: seq<Expense>)
    ensures Ids(a + b) == Ids(a) + Ids(b)
  {
    forall x | x in Ids(a + b) ensures x in Ids(a) + Ids(b) {
      var e :| e in a + b && e.id == x;
      if e in a { assert x in Ids(a); } else { assert e in b; assert x in Ids(b); }
    }
    forall x | x in Ids(a) + Ids(b) ensures x in Ids(a + b) {
      if x in Ids(a) {
        var e :| e in a && e.id == x;
        assert e in a + b;
      } else {
        var e :| e in b && e.id == x;
        assert e in a + b;
      }
    }
  }

  /** The smallest n >= c that is not in `ids`. */
  function FirstGap(ids: set<int>, c: int): (r: int)
    ensures c <= r && r !in ids
    ensures forall k :: c <= k < r ==> k in ids
    decreases ids
  {
    if c in ids then FirstGap(ids - {c}, c + 1) else c
  }

  /** n is the smallest positive integer not used as an id in `es`. */
  predicate IsSmallestFreeId(es: seq<Expense>, n: int) {
    1 <= n && n !in Ids(es) && forall k :: 1 <= k < n ==> k in Ids(es)
  }

  /** The id `find_next_id` returns. */
  function NextId(es: seq<Expense>): int {
    FirstGap(Ids(es), 1)
  }

  /** The next id is positive, unused, and every smaller positive number is in use. */
  lemma NextIdIsSmallestFree(es: seq<Expense>)
    ensures IsSmallestFreeId(es, NextId(es))
  {
  }

  /** Smallest-free is a definition: at most one number meets it. */
  lemma SmallestFreeIdUnique(es: seq<Expense>, m: int, n: int)
    requires IsSmallestFreeId(es, m) && IsSmallestFreeId(es, n)
    ensures m == n
  {
  }

  /** `find_next_id`: counts up from 1 while the counter is taken. */
  method FindNextId(es: seq<Expense>) returns (counter: int)
    ensures IsSmallestFreeId(es, counter)
    ensures counter == NextId(es)
  {
    NextIdIsSmallestFree(es);
    var ids := Ids(es);
    counter := 1;
    while counter in ids
      invariant 1 <= counter <= NextId(es)
      decreases NextId(es) - counter
    {
      counter := counter + 1;
    }
    SmallestFreeIdUnique(es, counter, NextId(es));
  }

  /** No new id is a number already in use, so `es` with the new record keeps unique ids. */
  lemma NextIdIsFresh(es: seq<Expense>)
    ensures forall i :: 0 <= i < |es| ==> es[i].id != NextId(es)
  {
    NextIdIsSmallestFree(es);
    forall i | 0 <= i < |es| ensures es[i].id != NextId(es) {
      assert es[i] in es;
      assert es[i].id in Ids(es);
    }
  }

  /** The numbers 1 to n, as a set of n elements. */
  function UpTo(n: nat): (r: set<int>)
    ensures forall k :: k in r <==> 1 <= k <= n
    ensures |r| == n
  {
    if n == 0 then {} else UpTo(n - 1) + {n}
  }

  lemma {:induction false} IdsCardinality(es: seq<Expense>)
    ensures |Ids(es)| <= |es|
  {
    if es != [] {
      IdsCardinality(es[1..]);
      IdsConcat([es[0]], es[1..]);
      assert es == [es[0]] + es[1..];
      assert Ids([es[0]]) == {es[0].id};
    }
  }

  /** Every number below the result is in use, so the result is at most one more than the list length. */
  lemma NextIdAtMostLengthPlusOne(es: seq<Expense>)
    ensures NextId(es) <= |es| + 1
  {
    var n := NextId(es);
    NextIdIsSmallestFree(es);
    var below := UpTo(n - 1);
    assert below <= Ids(es);
    assert Ids(es) == below + (Ids(es) - below);
    IdsCardinality(es);
  }

  /** On `[]` the first id is 1; with ids 1, 2 and 4 in use the gap 3 is reused. */
  lemma NextIdExamples(d: string, v: real)
    ensures NextId([]) == 1
    ensures NextId([Expense(1, d, v, false), Expense(2, d, v, false), Expense(4, d, v, false)]) == 3
  {
    var es := [Expense(1, d, v, false), Expense(2, d, v, false), Expense(4, d, v, false)];
    assert Ids(es) == {1, 2, 4} by {
      assert es[0] in es && es[1] in es && es[2] in es;
    }
    assert IsSmallestFreeId(es, 3);
    NextIdIsSmallestFree(es);
    NextIdIsSmallestFree([]);
    SmallestFreeIdUnique(es, 3, NextId(es));
  }

  // ---------------------------------------------------------------- add

  /** `add_expense` on a list value: the new list, or the error it raises (the list is then untouched). */
  function Added(es: seq<Expense>, value: real, description: string): Result<seq<Expense>, Error> {
    if value <= 0.0 then Failure(AmountNotPositive)
    else match NewExpense(NextId(es), description, value, IsPricey(value))
      case Failure(e) => Failure(e)
      case Success(x) => Success(es + [x])
  }

  /** The add path fails on a non-positive amount (checked first) and on an empty description;
      otherwise it appends one record with the smallest free id and `pricey` set from the amount. */
  lemma AddedOutcome(es: seq<Expense>, value: real, description: string)
    ensures value <= 0.0 ==> Added(es, value, description) == Failure(AmountNotPositive)
    ensures value > 0.0 && description == "" ==> Added(es, value, description) == Failure(DescriptionRequired)
    ensures value > 0.0 && description != "" ==>
      Added(es, value, description) == Success(es + [Expense(NextId(es), description, value, value >= 1000.0)])
  {
  }

  /** Adding keeps ids pairwise distinct, and every earlier record stays where it was. */
  lemma AddedKeepsIdsUnique(es: seq<Expense>, value: real, description: string)
    requires UniqueIds(es)
    requires Added(es, value, description).Success?
    ensures UniqueIds(Added(es, value, description).value)
    ensures Added(es, value, description).value[..|es|] == es
  {
    NextIdIsFresh(es);
  }

  /** The caller's list that `add_expense` appends to. */
  class ExpenseList {
    var items: seq<Expense>

    constructor (items: seq<Expense>)
      ensures this.items == items
    {
      this.items := items;
    }

    /** `add_expense`: on success one record is appended in place; on error nothing changes. */
    method Add(value: real, description: string) returns (outcome: Outcome<Error>)
      modifies this
      ensures Added(old(items), value, description).Success? ==>
        outcome == Pass && items == Added(old(items), value, description).value
      ensures Added(old(items), value, description).Failure? ==>
        outcome == Fail(Added(old(items), value, description).error) && items == old(items)
    {
      if value <= 0.0 {
        return Fail(AmountNotPositive);
      }
      var id := FindNextId(items);
      var made := NewExpense(id, description, value, IsPricey(value));
      match made {
        case Failure(e) =>
          outcome := Fail(e);
        case Success(x) =>
          items := items + [x];
          outcome := Pass;
      }
    }
  }

  // ---------------------------------------------------------------- validator

  /** What `validate_description_or_value` may be given: a number, a string, or anything else. */
  datatype Item = Number(amount: real) | Text(text: string) | OtherValue

  /** `validate_description_or_value`. */
  function Validate(item: Item): Outcome<Error> {
    match item
    case Number(a) => if a <= 0.0 then Fail(AmountNotPositive) else Pass
    case Text(s) => if Strip(s) == "" then Fail(DescriptionEmpty) else Pass
    case OtherValue => Fail(InvalidType)
  }

  /** The validator refuses exactly the non-positive numbers, the blank strings and other types. */
  lemma ValidateRejects(item: Item)
    ensures item.Number? ==> (Validate(item).Fail? <==> item.amount <= 0.0)
    ensures item.Text? ==> (Validate(item).Fail? <==> AllSpace(item.text))
    ensures item.Text? && Validate(item).Fail? ==> Validate(item).error == DescriptionEmpty
    ensures item.OtherValue? ==> Validate(item) == Fail(InvalidType)
  {
    if item.Text? {
      StripEmptyIffAllSpace(item.text);
    }
  }

  /** A description the validator accepts is one the record accepts; the converse fails on " ". */
  lemma ValidatorStricterThanRecord(id: int, s: string, value: real, pricey: bool)
    ensures Validate(Text(s)).Pass? ==> NewExpense(id, s, value, pricey).Success?
    ensures Validate(Text(" ")).Fail? && NewExpense(id, " ", value, pricey).Success?
  {
    StripEmptyIffAllSpace(s);
    StripEmptyIffAllSpace(" ");
  }

  /** The `add` command: validate the amount, then the description, then run `add_expense`
      on the loaded list. A failure leaves the stored list as it was. */
  function AddCommand(stored: seq<Expense>, value: real, description: string): Result<seq<Expense>, Error> {
    match Validate(Number(value))
    case Fail(e) => Failure(e)
    case Pass =>
      match Validate(Text(description))
      case Fail(e) => Failure(e)
      case Pass => Added(stored, value, description)
  }

  /** The command refuses non-positive amounts and blank (not only empty) descriptions, and
      otherwise appends one record with the smallest free id, keeping ids unique. */
  lemma AddCommandOutcome(stored: seq<Expense>, value: real, description: string)
    ensures AddCommand(stored, value, description).Failure? <==> value <= 0.0 || AllSpace(description)
    ensures value <= 0.0 ==> AddCommand(stored, value, description) == Failure(AmountNotPositive)
    ensures value > 0.0 && AllSpace(description) ==>
      AddCommand(stored, value, description) == Failure(DescriptionEmpty)
    ensures AddCommand(stored, value, description).Success? ==>
      AddCommand(stored, value, description).value
        == stored + [Expense(NextId(stored), description, value, IsPricey(value))]
    ensures AddCommand(stored, value, description).Success? && UniqueIds(stored) ==>
      UniqueIds(AddCommand(stored, value, description).value)
  {
    StripEmptyIffAllSpace(description);
    if value > 0.0 && !AllSpace(description) {
      assert description != "";
      if UniqueIds(stored) {
        AddedKeepsIdsUnique(stored, value, description);
      }
    }
  }
}
