/**
 * The loan records of the locker registry and the pure part of what the
 * page does with them: the busy-locker check, the validation of the create
 * form, the record a successful create appends, the flip of `isReturned`,
 * the removal by id, the status views and the filter-button cycle.
 * Field names are the ones the page stores.
 */
module Loans {
  import opened Text
  import opened JsArray

  /** One loan: `id` is the `Date.now()` value of its creation. */
  datatype Loan = Loan(
    id: int,
    lokerNomor: string,
    peminjamNama: string,
    tanggalPinjam: string,
    tanggalJatuhTempo: string,
    isReturned: bool)

  /** No two unreturned loans share a locker number. */
  ghost predicate AtMostOnePending(loans: seq<Loan>) {
    forall i, j :: 0 <= i < j < |loans| && !loans[i].isReturned && !loans[j].isReturned ==>
      loans[i].lokerNomor != loans[j].lokerNomor
  }

  /** No two loans share an id. The page never checks this. */
  ghost predicate UniqueIds(loans: seq<Loan>) {
    forall i, j :: 0 <= i < j < |loans| ==> loans[i].id != loans[j].id
  }

  // ---------------------------------------------------------------- busy check

  /** The `some` check of the create handler: an unreturned loan holds this locker. */
  function IsLockerPending(loans: seq<Loan>, lokerNomor: string): (r: bool)
    ensures r <==> exists i :: 0 <= i < |loans| && loans[i].lokerNomor == lokerNomor && !loans[i].isReturned
  {
    SomeMatches(loans, (item: Loan) => item.lokerNomor == lokerNomor && !item.isReturned)
  }

  // ---------------------------------------------------------------- create

  /** What the submit handler does with one form submission. */
  datatype SubmitOutcome =
    | MissingField              // the "fill in every field" alert
    | LockerBusy(lokerNomor: string)  // the "locker is on loan" alert
    | Added(loan: Loan)

  /**
   * The outcome of submitting the three raw form values, given the current
   * loans, the `Date.now()` value and the `getTodayDate()` string.
   */
  function Submission(loans: seq<Loan>, lokerInput: string, namaInput: string,
                      tanggalKembali: string, now: int, today: string): (r: SubmitOutcome)
    ensures r.LockerBusy? ==> r.lokerNomor != [] && IsLockerPending(loans, r.lokerNomor)
    ensures r.Added? ==> !IsLockerPending(loans, r.loan.lokerNomor)
    ensures r.Added? ==>
      && r.loan.id == now && !r.loan.isReturned
      && r.loan.tanggalPinjam == today && r.loan.tanggalJatuhTempo == tanggalKembali != []
      && r.loan.lokerNomor != [] && IsTrimmed(r.loan.lokerNomor)
      && r.loan.peminjamNama != [] && IsTrimmed(r.loan.peminjamNama)
  {
    TrimIsTrimmed(namaInput);
    var lokerNomor := NormaliseLocker(lokerInput);
    var peminjamNama := Trim(namaInput);
    if lokerNomor == [] || peminjamNama == [] || tanggalKembali == [] then MissingField
    else if IsLockerPending(loans, lokerNomor) then LockerBusy(lokerNomor)
    else Added(Loan(now, lokerNomor, peminjamNama, today, tanggalKembali, false))
  }

  /** The loans after a submission: the new loan pushed on the end, or nothing changed. */
  function AfterSubmission(loans: seq<Loan>, outcome: SubmitOutcome): (r: seq<Loan>)
    ensures |r| >= |loans| && r[..|loans|] == loans
    ensures outcome.Added? ==> |r| == |loans| + 1 && r[|loans|] == outcome.loan
    ensures !outcome.Added? ==> r == loans
  {
    if outcome.Added? then loans + [outcome.loan] else loans
  }

  /**
   * Validation: the submission is refused as incomplete exactly when the
   * locker number or the name holds only whitespace, or the due date is
   * empty (the due date is not trimmed). Nothing is added then.
   */
  lemma SubmissionMissingField(loans: seq<Loan>, lokerInput: string, namaInput: string,
                               tanggalKembali: string, now: int, today: string)
    ensures var o := Submission(loans, lokerInput, namaInput, tanggalKembali, now, today);
      (o.MissingField? <==> IsBlank(lokerInput) || IsBlank(namaInput) || tanggalKembali == []) &&
      (o.MissingField? ==> AfterSubmission(loans, o) == loans)
  {
  }

  /**
   * Busy locker: a complete submission is refused exactly when an unreturned
   * loan holds the normalised locker number. Returned loans on that locker
   * do not block it. Nothing is added then.
   */
  lemma SubmissionLockerBusy(loans: seq<Loan>, lokerInput: string, namaInput: string,
                             tanggalKembali: string, now: int, today: string)
    requires !IsBlank(lokerInput) && !IsBlank(namaInput) && tanggalKembali != []
    ensures var o := Submission(loans, lokerInput, namaInput, tanggalKembali, now, today);
      (o.LockerBusy? <==>
        exists i :: 0 <= i < |loans| && !loans[i].isReturned &&
          loans[i].lokerNomor == NormaliseLocker(lokerInput)) &&
      (o.LockerBusy? ==> o.lokerNomor == NormaliseLocker(lokerInput) && AfterSubmission(loans, o) == loans)
  {
  }

  /**
   * Success: one loan is appended at the end and the earlier ones are kept.
   * It carries the normalised locker number, the trimmed name, today's date
   * as borrow date, the due date as given and `isReturned == false`.
   */
  lemma SubmissionAdded(loans: seq<Loan>, lokerInput: string, namaInput: string,
                        tanggalKembali: string, now: int, today: string)
    requires !IsBlank(lokerInput) && !IsBlank(namaInput) && tanggalKembali != []
    requires forall i :: 0 <= i < |loans| && !loans[i].isReturned ==>
      loans[i].lokerNomor != NormaliseLocker(lokerInput)
    ensures var o := Submission(loans, lokerInput, namaInput, tanggalKembali, now, today);
      var after := AfterSubmission(loans, o);
      o.Added? &&
      |after| == |loans| + 1 && after[..|loans|] == loans && after[|loans|] == o.loan &&
      o.loan == Loan(now, NormaliseLocker(lokerInput), Trim(namaInput), today, tanggalKembali, false) &&
      o.loan.lokerNomor != [] && IsTrimmed(o.loan.lokerNomor) && NormaliseLocker(o.loan.lokerNomor) == o.loan.lokerNomor &&
      o.loan.peminjamNama != [] && IsTrimmed(o.loan.peminjamNama)
  {
    NormaliseLockerIdempotent(lokerInput);
    TrimIsTrimmed(namaInput);
    var o := Submission(loans, lokerInput, namaInput, tanggalKembali, now, today);
    assert (loans + [o.loan])[..|loans|] == loans;
  }

  /**
   * The locker input's letter case does not matter: "a1" and "A1" give the
   * same outcome, so a busy "A1" also refuses "a1".
   */
  lemma SubmissionIgnoresLockerCase(loans: seq<Loan>, lokerA: string, lokerB: string, namaInput: string,
                                    tanggalKembali: string, now: int, today: string)
    requires SameIgnoringAsciiCase(lokerA, lokerB)
    ensures Submission(loans, lokerA, namaInput, tanggalKembali, now, today) ==
            Submission(loans, lokerB, namaInput, tanggalKembali, now, today)
  {
    NormaliseLockerIgnoresAsciiCase(lokerA, lokerB);
  }

  /** A submission never creates a second unreturned loan on one locker. */
  lemma SubmissionKeepsOnePending(loans: seq<Loan>, lokerInput: string, namaInput: string,
                                  tanggalKembali: string, now: int, today: string)
    requires AtMostOnePending(loans)
    ensures AtMostOnePending(AfterSubmission(loans, Submission(loans, lokerInput, namaInput, tanggalKembali, now, today)))
  {
    var o := Submission(loans, lokerInput, namaInput, tanggalKembali, now, today);
    if o.Added? {
      var after := loans + [o.loan];
      forall i, j | 0 <= i < j < |after| && !after[i].isReturned && !after[j].isReturned
        ensures after[i].lokerNomor != after[j].lokerNomor
      {
        if j == |loans| {
          assert after[i] == loans[i];
        } else {
          assert after[i] == loans[i] && after[j] == loans[j];
        }
      }
    }
  }

  /** A submission with a fresh `Date.now()` value keeps the ids distinct. */
  lemma SubmissionKeepsUniqueIds(loans: seq<Loan>, lokerInput: string, namaInput: string,
                                 tanggalKembali: string, now: int, today: string)
    requires UniqueIds(loans)
    requires forall i :: 0 <= i < |loans| ==> loans[i].id != now
    ensures UniqueIds(AfterSubmission(loans, Submission(loans, lokerInput, namaInput, tanggalKembali, now, today)))
  {
    var o := Submission(loans, lokerInput, namaInput, tanggalKembali, now, today);
    if o.Added? {
      var after := loans + [o.loan];
      forall i, j | 0 <= i < j < |after| ensures after[i].id != after[j].id {
        assert after[i] == loans[i];
        if j < |loans| {
          assert after[j] == loans[j];
        }
      }
    }
  }

  // ---------------------------------------------------------------- toggle

  /** The position `findIndex` reports for this id, or -1. */
  function IndexOfId(loans: seq<Loan>, id: int): (r: int)
    ensures -1 <= r < |loans|
    ensures r == -1 <==> forall i :: 0 <= i < |loans| ==> loans[i].id != id
    ensures r != -1 ==> loans[r].id == id && forall i :: 0 <= i < r ==> loans[i].id != id
  {
    FindIndex(loans, (item: Loan) => item.id == id)
  }

  /** `toggleReturnStatus(id)` on the loans: flips `isReturned` of the first loan with this id. */
  function Toggled(loans: seq<Loan>, id: int): (r: seq<Loan>)
    ensures |r| == |loans|
    ensures forall i :: 0 <= i < |loans| ==> r[i] == loans[i].(isReturned := r[i].isReturned)
    ensures AtMostOnePending(loans) && (forall i :: 0 <= i < |loans| && loans[i].id == id ==> !loans[i].isReturned)
      ==> AtMostOnePending(r)
  {
    var k := IndexOfId(loans, id);
    if k > -1 then loans[k := loans[k].(isReturned := !loans[k].isReturned)] else loans
  }

  /**
   * Toggle changes one field of one record: `isReturned` of the first loan
   * with the id. Length, order and everything else stay as they were; an
   * unknown id changes nothing.
   */
  lemma ToggledFrame(loans: seq<Loan>, id: int)
    ensures var after := Toggled(loans, id);
      |after| == |loans| &&
      (forall i :: 0 <= i < |loans| && loans[i].id != id ==> after[i] == loans[i]) &&
      ((forall i :: 0 <= i < |loans| ==> loans[i].id != id) ==> after == loans) &&
      (forall k :: 0 <= k < |loans| && loans[k].id == id && (forall i :: 0 <= i < k ==> loans[i].id != id) ==>
        after[k] == loans[k].(isReturned := !loans[k].isReturned) &&
        forall i :: 0 <= i < |loans| && i != k ==> after[i] == loans[i])
  {
    var k := IndexOfId(loans, id);
    forall j | 0 <= j < |loans| && loans[j].id == id && (forall i :: 0 <= i < j ==> loans[i].id != id)
      ensures j == k
    {
      assert !(k < j) && !(j < k);
    }
  }

  /** Toggling the same id twice restores the loans. */
  lemma ToggledTwice(loans: seq<Loan>, id: int)
    ensures Toggled(Toggled(loans, id), id) == loans
  {
    var once := Toggled(loans, id);
    FindIndexAgrees(loans, once, (item: Loan) => item.id == id);
  }

  /** Marking an unreturned loan as returned cannot break the one-pending rule. */
  lemma ToggledToReturnedKeepsOnePending(loans: seq<Loan>, id: int)
    requires AtMostOnePending(loans)
    requires IndexOfId(loans, id) > -1 ==> !loans[IndexOfId(loans, id)].isReturned
    ensures AtMostOnePending(Toggled(loans, id))
  {
  }

  /**
   * Undoing a return can break the one-pending rule: with a returned and an
   * unreturned loan on locker "A1", toggling the returned one leaves two
   * unreturned loans on "A1".
   */
  lemma ToggledCanBreakOnePending()
    ensures var loans := [Loan(1, "A1", "Alice", "2025-01-01", "2025-01-10", true),
                          Loan(2, "A1", "Bob", "2025-01-02", "2025-02-01", false)];
      AtMostOnePending(loans) && !AtMostOnePending(Toggled(loans, 1))
  {
    var loans := [Loan(1, "A1", "Alice", "2025-01-01", "2025-01-10", true),
                  Loan(2, "A1", "Bob", "2025-01-02", "2025-02-01", false)];
    assert IndexOfId(loans, 1) == 0;
    var after := Toggled(loans, 1);
    assert !after[0].isReturned && !after[1].isReturned && after[0].lokerNomor == after[1].lokerNomor;
  }

  // ---------------------------------------------------------------- delete

  /** `deletePeminjaman(id)` on the loans: keeps the loans whose id differs. */
  function Deleted(loans: seq<Loan>, id: int): (r: seq<Loan>)
    ensures forall x :: x in r <==> x in loans && x.id != id
  {
    Filter(loans, (item: Loan) => item.id != id)
  }

  /**
   * Delete removes every loan with the id and keeps the others in their
   * original order; an unknown id leaves the loans as they are.
   */
  lemma DeletedOrder(loans: seq<Loan>, id: int)
    ensures IsSubsequence(Deleted(loans, id), loans)
    ensures (forall i :: 0 <= i < |loans| ==> loans[i].id != id) ==> Deleted(loans, id) == loans
    ensures |Deleted(loans, id)| + |Filter(loans, (item: Loan) => item.id == id)| == |loans|
  {
    FilterIsSubsequence(loans, (item: Loan) => item.id != id);
    if forall i :: 0 <= i < |loans| ==> loans[i].id != id {
      FilterKeepsAll(loans, (item: Loan) => item.id != id);
    }
    FilterPartition(loans, (item: Loan) => item.id != id, (item: Loan) => item.id == id);
  }

  lemma OnePendingTail(loans: seq<Loan>)
    requires loans != [] && AtMostOnePending(loans)
    ensures AtMostOnePending(loans[1..])
  {
    var tail := loans[1..];
    forall i, j | 0 <= i < j < |tail| && !tail[i].isReturned && !tail[j].isReturned
      ensures tail[i].lokerNomor != tail[j].lokerNomor
    {
      assert tail[i] == loans[i + 1] && tail[j] == loans[j + 1];
    }
  }

  /** Putting a loan in front of others keeps the rule when no other unreturned loan shares its locker. */
  lemma OnePendingCons(x: Loan, rest: seq<Loan>)
    requires AtMostOnePending(rest)
    requires !x.isReturned ==> forall y :: y in rest && !y.isReturned ==> y.lokerNomor != x.lokerNomor
    ensures AtMostOnePending([x] + rest)
  {
    var r := [x] + rest;
    forall i, j | 0 <= i < j < |r| && !r[i].isReturned && !r[j].isReturned
      ensures r[i].lokerNomor != r[j].lokerNomor
    {
      assert r[j] == rest[j - 1];
      if i > 0 {
        assert r[i] == rest[i - 1];
      } else {
        assert r[j] in rest;
      }
    }
  }

  /** Keeping only some loans keeps the one-pending rule. */
  lemma {:induction false} FilterKeepsOnePending(loans: seq<Loan>, p: Loan -> bool)
    requires AtMostOnePending(loans)
    ensures AtMostOnePending(Filter(loans, p))
  {
    if loans != [] {
      var tail := loans[1..];
      OnePendingTail(loans);
      FilterKeepsOnePending(tail, p);
      var rest := Filter(tail, p);
      if p(loans[0]) {
        assert Filter(loans, p) == [loans[0]] + rest;
        forall y | y in rest && !y.isReturned && !loans[0].isReturned
          ensures y.lokerNomor != loans[0].lokerNomor
        {
          var m :| 0 <= m < |tail| && tail[m] == y;
          assert loans[m + 1] == y;
        }
        OnePendingCons(loans[0], rest);
      } else {
        assert Filter(loans, p) == rest;
      }
    }
  }

  lemma DeletedKeepsOnePending(loans: seq<Loan>, id: int)
    requires AtMostOnePending(loans)
    ensures AtMostOnePending(Deleted(loans, id))
  {
    FilterKeepsOnePending(loans, (item: Loan) => item.id != id);
  }

  // ---------------------------------------------------------------- views

  function IsReturnedLoan(item: Loan): bool { item.isReturned }

  function IsPendingLoan(item: Loan): bool { !item.isReturned }

  /** The loans `renderPeminjaman(filter)` lists: any filter but these two lists everything. */
  function View(loans: seq<Loan>, filter: string): (r: seq<Loan>)
    ensures |r| <= |loans|
    ensures forall x :: x in r <==>
      x in loans && (filter == "pending" ==> !x.isReturned) && (filter == "returned" ==> x.isReturned)
  {
    if filter == "returned" then Filter(loans, IsReturnedLoan)
    else if filter == "pending" then Filter(loans, IsPendingLoan)
    else loans
  }

  /**
   * The "pending" and "returned" views keep the original order, hold exactly
   * the unreturned and the returned loans, and together hold every loan once.
   * Any other filter value shows the loans themselves.
   */
  lemma ViewsSplitLoans(loans: seq<Loan>, filter: string)
    ensures IsSubsequence(View(loans, "pending"), loans) && IsSubsequence(View(loans, "returned"), loans)
    ensures forall x :: x in View(loans, "pending") <==> x in loans && !x.isReturned
    ensures forall x :: x in View(loans, "returned") <==> x in loans && x.isReturned
    ensures multiset(View(loans, "pending")) + multiset(View(loans, "returned")) == multiset(loans)
    ensures |View(loans, "pending")| + |View(loans, "returned")| == |loans|
    ensures filter != "pending" && filter != "returned" ==> View(loans, filter) == loans
  {
    FilterIsSubsequence(loans, IsPendingLoan);
    FilterIsSubsequence(loans, IsReturnedLoan);
    FilterPartition(loans, IsPendingLoan, IsReturnedLoan);
  }

  /** The filter button's next state: all, then pending, then returned, then all again. */
  function NextFilter(filter: string): (r: string)
    ensures r == "all" || r == "pending" || r == "returned"
  {
    if filter == "all" then "pending"
    else if filter == "pending" then "returned"
    else "all"
  }

  /** The order all, pending, returned; three presses come back to where they started; any other value goes to "all". */
  lemma NextFilterCycle(filter: string)
    ensures filter == "all" || filter == "pending" || filter == "returned" ==>
      NextFilter(NextFilter(NextFilter(filter))) == filter
    ensures filter != "all" && filter != "pending" && filter != "returned" ==> NextFilter(filter) == "all"
    ensures NextFilter("all") == "pending" && NextFilter("pending") == "returned" && NextFilter("returned") == "all"
    ensures NextFilter(filter) != filter
  {
  }

  // ---------------------------------------------------------------- a session

  /** The one-loan case of the busy check, used by the session below. */
  lemma RefusedWhileOut(loan: Loan, lokerInput: string, namaInput: string, due: string, now: int, today: string)
    requires !loan.isReturned && loan.lokerNomor == NormaliseLocker(lokerInput)
    requires !IsBlank(lokerInput) && !IsBlank(namaInput) && due != []
    ensures Submission([loan], lokerInput, namaInput, due, now, today) == LockerBusy(loan.lokerNomor)
  {
    SubmissionLockerBusy([loan], lokerInput, namaInput, due, now, today);
    assert [loan][0] == loan;
  }

  /** The one-loan case of toggle, used by the session below. */
  lemma ToggleSingle(loan: Loan)
    ensures Toggled([loan], loan.id) == [loan.(isReturned := !loan.isReturned)]
  {
    assert IndexOfId([loan], loan.id) == 0;
  }

  /** The one-loan case of a successful create, used by the session below. */
  lemma AcceptedAfterReturn(loan: Loan, lokerInput: string, namaInput: string, due: string, now: int, today: string)
    requires loan.isReturned
    requires !IsBlank(lokerInput) && !IsBlank(namaInput) && due != []
    ensures var b := Submission([loan], lokerInput, namaInput, due, now, today);
      b.Added? && b.loan.lokerNomor == NormaliseLocker(lokerInput) &&
      AfterSubmission([loan], b) == [loan, b.loan]
  {
    var loans := [loan];
    assert forall i :: 0 <= i < |loans| ==> loans[i].isReturned;
    SubmissionAdded(loans, lokerInput, namaInput, due, now, today);
  }

  /**
   * A locker can be borrowed again once its loan is returned: the first
   * borrower's request is accepted; a second request for the same locker
   * (however it is spelt before normalisation) is refused while that loan is
   * out; after the first loan is toggled to returned, the second request is
   * accepted as a new loan and the first one stays in the list.
   */
  lemma ReborrowAfterReturn(lokerA: string, lokerB: string, first: string, second: string,
                            dueA: string, dueB: string, idA: int, idB: int, idC: int, today: string)
    requires NormaliseLocker(lokerA) == NormaliseLocker(lokerB)
    requires !IsBlank(lokerA) && !IsBlank(first) && !IsBlank(second) && dueA != [] && dueB != []
    ensures var a := Submission([], lokerA, first, dueA, idA, today);
      a.Added? &&
      Submission([a.loan], lokerB, second, dueB, idB, today) == LockerBusy(a.loan.lokerNomor) &&
      Toggled([a.loan], idA) == [a.loan.(isReturned := true)] &&
      var b := Submission([a.loan.(isReturned := true)], lokerB, second, dueB, idC, today);
      b.Added? && b.loan.lokerNomor == a.loan.lokerNomor &&
      AfterSubmission([a.loan.(isReturned := true)], b) == [a.loan.(isReturned := true), b.loan]
  {
    var a := Submission([], lokerA, first, dueA, idA, today);
    SubmissionAdded([], lokerA, first, dueA, idA, today);
    RefusedWhileOut(a.loan, lokerB, second, dueB, idB, today);
    ToggleSingle(a.loan);
    AcceptedAfterReturn(a.loan.(isReturned := true), lokerB, second, dueB, idC, today);
  }
}
