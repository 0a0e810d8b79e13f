/**
 * The page state of the locker-loan list: the `peminjaman` array, the
 * `currentFilter` of the filter button, the rows the table shows, and the
 * copy kept in local storage. Each method is one event handler of the page.
 */
module Registry {
  import opened Wrappers
  import opened Text
  import opened Dates
  import opened JsArray
  import opened Loans

  /** The three values the filter button cycles through. */
  predicate IsFilterState(filter: string) {
    filter == "all" || filter == "pending" || filter == "returned"
  }

  class LoanRegistry {
    /** The loans, in insertion order. */
    var peminjaman: seq<Loan>
    /** The filter button's state: "all", "pending" or "returned". */
    var currentFilter: string
    /** The loans the table lists after the last `renderPeminjaman` call. */
    var shown: seq<Loan>
    /** What the `peminjaman_loker` key of local storage holds. */
    ghost var stored: seq<Loan>
    /** How many times the loans were written to local storage. */
    ghost var saves: nat

    /** Storage mirrors memory, and the filter is one of its three values. */
    ghost predicate Valid()
      reads this
    {
      stored == peminjaman && IsFilterState(currentFilter)
    }

    /**
     * Start-up (`loadPeminjaman`): the saved loans when the key holds any,
     * otherwise none; then the table lists them all.
     */
    constructor Load(saved: Option<seq<Loan>>)
      ensures Valid()
      ensures peminjaman == (if saved.Some? then saved.value else [])
      ensures currentFilter == "all" && shown == peminjaman && saves == 0
    {
      var loaded := [];
      if saved.Some? {
        loaded := saved.value;
      }
      peminjaman := loaded;
      stored := loaded;
      saves := 0;
      currentFilter := "all";
      shown := View(loaded, "all");
    }

    /** `savePeminjaman`: overwrite the stored copy with the whole array. */
    ghost method Save()
      modifies this`stored, this`saves
      ensures stored == peminjaman && saves == old(saves) + 1
    {
      stored := peminjaman;
      saves := saves + 1;
    }

    /** `savePeminjaman(); renderPeminjaman();`: the tail of every handler that changes the loans. */
    method SaveAndRenderAll()
      modifies this`stored, this`saves, this`shown
      ensures stored == peminjaman && saves == old(saves) + 1 && shown == peminjaman
      ensures peminjaman == old(peminjaman) && currentFilter == old(currentFilter)
    {
      Save();
      Render("all");
    }

    /** The filter selection of `renderPeminjaman(filter)`. */
    method Render(filter: string)
      modifies this`shown
      ensures shown == View(peminjaman, filter)
    {
      if filter == "returned" {
        shown := Filter(peminjaman, IsReturnedLoan);
      } else if filter == "pending" {
        shown := Filter(peminjaman, IsPendingLoan);
      } else {
        shown := peminjaman;
      }
    }

    /**
     * The create form's submit handler. `now` stands for `Date.now()`, and
     * `year`, `monthIndex`, `day` for the fields of `new Date()`.
     */
    method Submit(lokerInput: string, namaInput: string, tanggalKembali: string,
                  now: int, year: int, monthIndex: int, day: int) returns (outcome: SubmitOutcome)
      requires Valid()
      requires 0 <= monthIndex <= 11 && 1 <= day <= 31
      modifies this
      ensures Valid()
      ensures outcome == Submission(old(peminjaman), lokerInput, namaInput, tanggalKembali, now,
                                    FormatDate(year, monthIndex, day))
      ensures peminjaman == AfterSubmission(old(peminjaman), outcome)
      ensures outcome.Added? ==> saves == old(saves) + 1 && shown == peminjaman
      ensures !outcome.Added? ==> saves == old(saves) && shown == old(shown)
      ensures currentFilter == old(currentFilter)
    {
      var today := FormatDate(year, monthIndex, day);
      ghost var expected := Submission(peminjaman, lokerInput, namaInput, tanggalKembali, now, today);
      var lokerNomor := ToUpper(Trim(lokerInput));
      var peminjamNama := Trim(namaInput);
      if lokerNomor == [] || peminjamNama == [] || tanggalKembali == [] {
        assert expected == MissingField;
        return MissingField;
      }
      var isLockerPending := IsLockerPending(peminjaman, lokerNomor);
      if isLockerPending {
        assert expected == LockerBusy(lokerNomor);
        return LockerBusy(lokerNomor);
      }
      var loan := Loan(now, lokerNomor, peminjamNama, today, tanggalKembali, false);
      assert expected == Added(loan);
      peminjaman := peminjaman + [loan];
      SaveAndRenderAll();
      outcome := Added(loan);
    }

    /**
     * `toggleReturnStatus(id)`: flips the first loan with this id, then saves
     * and lists everything; an unknown id does nothing at all.
     */
    method ToggleReturnStatus(id: int)
      requires Valid()
      modifies this
      ensures Valid()
      ensures peminjaman == Toggled(old(peminjaman), id)
      ensures IndexOfId(old(peminjaman), id) > -1 ==> saves == old(saves) + 1 && shown == peminjaman
      ensures IndexOfId(old(peminjaman), id) == -1 ==> saves == old(saves) && shown == old(shown)
      ensures currentFilter == old(currentFilter)
    {
      var itemIndex := FindIndex(peminjaman, (item: Loan) => item.id == id);
      if itemIndex > -1 {
        peminjaman := peminjaman[itemIndex := peminjaman[itemIndex].(isReturned := !peminjaman[itemIndex].isReturned)];
        SaveAndRenderAll();
      }
    }

    /** `deletePeminjaman(id)`: keeps the other loans, then saves and lists everything, always. */
    method DeletePeminjaman(id: int)
      requires Valid()
      modifies this
      ensures Valid()
      ensures peminjaman == Deleted(old(peminjaman), id)
      ensures saves == old(saves) + 1 && shown == peminjaman
      ensures currentFilter == old(currentFilter)
    {
      peminjaman := Filter(peminjaman, (item: Loan) => item.id != id);
      SaveAndRenderAll();
    }

    /** The "delete all" button, once the user has confirmed. */
    method DeleteAll()
      requires Valid()
      modifies this
      ensures Valid()
      ensures peminjaman == [] && stored == [] && shown == []
      ensures saves == old(saves) + 1 && currentFilter == old(currentFilter)
    {
      peminjaman := [];
      SaveAndRenderAll();
    }

    /** The filter button: advance the cycle and list the matching loans. */
    method ClickFilter()
      requires Valid()
      modifies this
      ensures Valid()
      ensures currentFilter == NextFilter(old(currentFilter))
      ensures shown == View(peminjaman, currentFilter)
      ensures peminjaman == old(peminjaman) && saves == old(saves)
    {
      if currentFilter == "all" {
        currentFilter := "pending";
      } else if currentFilter == "pending" {
        currentFilter := "returned";
      } else {
        currentFilter := "all";
      }
      Render(currentFilter);
    }
  }
}
