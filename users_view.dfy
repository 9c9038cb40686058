/**
 * The users page as a state machine: the list, the query (search, filters, sort), the
 * paging and infinite-scroll window, the form dialog and the notifications. Each handler of
 * the page is a method that updates the fields it sets; the rows on screen are derived
 * from the fields by the pure pipeline filter, then sort, then window.
 */
module UsersPage {
  import opened Wrappers
  import opened Text
  import opened Records
  import opened Query
  import opened Ordering
  import opened Window
  import opened Pagination
  import opened UserForm
  import opened Collection

  /** The page sizes the Rows-per-page selector offers. */
  const PageSizeOptions: seq<nat> := [10, 25, 50, 100]

  const LoadFailed: String := "Failed to load users"
  const SaveFailed: String := "Failed to save user"
  const DeleteFailed: String := "Failed to delete user"
  const CreatedNotice: String := "User created"
  const UpdatedNotice: String := "User updated"
  const DeletedNotice: String := "User deleted"

  datatype ToastKind = Info | Success | Failure

  /** A notification; its id and display time are not modelled. */
  datatype Toast = Toast(message: String, kind: ToastKind)

  datatype FormMode = Add | Edit

  /** `e.message || fallback`: the error's own message unless it is empty. */
  function ErrorText(message: String, fallback: String): (t: String)
    ensures message != "" ==> t == message
    ensures message == "" ==> t == fallback
  {
    if message == "" then fallback else message
  }

  /** The header click: the same key flips the direction, another key sorts by it ascending. */
  function SortAfter(key: SortKey, dir: SortDir, next: SortKey): (r: (SortKey, SortDir))
    ensures r.0 == next
    ensures next == key ==> r.1 != dir
    ensures next != key ==> r.1 == Asc
  {
    if next == key then (key, if dir == Asc then Desc else Asc) else (next, Asc)
  }

  /** Every click changes the sort state, and clicking the same header twice restores it. */
  lemma SortClickTwice(key: SortKey, dir: SortDir)
    ensures SortAfter(key, dir, key) != (key, dir)
    ensures var s := SortAfter(key, dir, key); SortAfter(s.0, s.1, key) == (key, dir)
  {
  }

  /** A slice of an ordered list holds members of the list and is ordered. */
  lemma SliceOfOrdered(s: seq<User>, lo: int, hi: int, key: SortKey, dir: SortDir)
    requires 0 <= lo <= hi <= |s| && Ordered(s, key, dir)
    ensures forall i | 0 <= i < hi - lo :: s[lo..hi][i] in s
    ensures Ordered(s[lo..hi], key, dir)
  {
    var w := s[lo..hi];
    forall i | 0 <= i < |w| ensures w[i] == s[lo + i] {
    }
  }

  /** `r` is a contiguous run of `s`, starting at its head when `fromStart` holds. */
  predicate WindowOf(s: seq<User>, r: seq<User>, fromStart: bool) {
    exists lo, hi | 0 <= lo <= hi <= |s| :: r == s[lo..hi] && (fromStart ==> lo == 0)
  }

  /**
   * The rows the table shows from the sorted list: the growing window in infinite mode, the
   * clamped page otherwise. They are members of the list, in its order.
   */
  function ShownRows(s: seq<User>, key: SortKey, dir: SortDir, infinite: bool, page: int, pageSize: nat,
                     itemsToShow: nat): (r: seq<User>)
    requires page >= 1 && pageSize > 0 && Ordered(s, key, dir)
    ensures forall i | 0 <= i < |r| :: r[i] in s
    ensures Ordered(r, key, dir)
    ensures infinite ==> |r| == Min(itemsToShow, |s|)
    ensures !infinite ==> |r| <= pageSize && (|r| == 0 <==> |s| == 0)
    ensures WindowOf(s, r, infinite)
    ensures !infinite ==> r == PageItems(s, page, pageSize)
  {
    if infinite then
      var hi := Min(itemsToShow, |s|);
      SliceOfOrdered(s, 0, hi, key, dir);
      var r := InfiniteItems(s, itemsToShow);
      assert r == s[0..hi];
      assert WindowOf(s, r, infinite);
      r
    else
      var start := StartIndex(page, |s|, pageSize);
      var hi := Min(|s|, start + pageSize);
      SliceOfOrdered(s, start, hi, key, dir);
      var r := PageItems(s, page, pageSize);
      assert r == s[start..hi];
      assert WindowOf(s, r, infinite);
      r
  }

  /** The blank form: four empty fields. */
  const BlankValues: FormValues := FormValues("", "", "", "")

  class UsersView {
    var users: seq<User>
    var error: String
    var searchInput: String
    var search: String
    var filters: Filters
    var showFilters: bool
    var sortKey: SortKey
    var sortDir: SortDir
    var page: int
    var pageSize: nat
    var infinite: bool
    var itemsToShow: nat
    var formOpen: bool
    var formMode: FormMode
    var editingId: Option<int>
    var toasts: seq<Toast>

    /**
     * The requested page is at least 1 and the page size is one the selector offers, so it
     * is positive.
     */
    predicate Valid()
      reads this`page, this`pageSize
    {
      page >= 1 && pageSize > 0 && pageSize in PageSizeOptions
    }

    /**
     * The `sorted` derivation of the current state: the matching records, each as often as
     * among the loaded ones, in key order, with equal keys in their `filtered` order.
     */
    function Sorted(): (r: seq<User>)
      reads this`users, this`search, this`filters, this`sortKey, this`sortDir
      ensures forall u :: u in r <==> u in users && Matches(u, search, filters)
      ensures Ordered(r, sortKey, sortDir)
      ensures MatchCounts(r, users, search, filters)
      ensures SameKeyGroups(r, Filtered(users, search, filters), sortKey)
    {
      var f := Filtered(users, search, filters);
      var r := SortBy(f, sortKey, sortDir);
      forall u ensures u in r <==> u in users && Matches(u, search, filters) {
        assert u in r <==> u in multiset(r);
        assert u in users <==> u in multiset(users);
      }
      forall v ensures WithKey(r, sortKey, v) == WithKey(f, sortKey, v) {
        SortStable(f, sortKey, sortDir, v);
      }
      r
    }

    /** `total`: the number of records that match the query. */
    function Total(): nat
      reads this`users, this`search, this`filters, this`sortKey, this`sortDir
    {
      |Sorted()|
    }

    /** `currentPage`: the requested page clamped to the last page. */
    function ShownPage(): (p: int)
      reads this`users, this`search, this`filters, this`sortKey, this`sortDir, this`page, this`pageSize
      requires Valid()
      ensures 1 <= p <= TotalPages(Total(), pageSize)
    {
      CurrentPage(page, Total(), pageSize)
    }

    /**
     * The rows on screen: the first `itemsToShow` sorted records in infinite mode, the shown
     * page otherwise. Every row is a loaded record that matches the query, there are never
     * more than in a page (paged mode) or than `itemsToShow` (infinite mode), and the rows
     * are a contiguous run of the sorted records, from the first one in infinite mode.
     */
    function VisibleRows(): (r: seq<User>)
      reads this`users, this`search, this`filters, this`sortKey, this`sortDir
      reads this`page, this`pageSize, this`infinite, this`itemsToShow
      requires Valid()
      ensures forall i | 0 <= i < |r| :: r[i] in users && Matches(r[i], search, filters)
      ensures Ordered(r, sortKey, sortDir)
      ensures infinite ==> |r| == Min(itemsToShow, Total())
      ensures !infinite ==> |r| <= pageSize && (|r| == 0 <==> Total() == 0)
      ensures WindowOf(Sorted(), r, infinite)
      ensures !infinite ==> r == PageItems(Sorted(), page, pageSize)
    {
      ShownRows(Sorted(), sortKey, sortDir, infinite, page, pageSize, itemsToShow)
    }

    /** `initialValuesForForm()`: the edited record's fields when it exists, the blank form otherwise. */
    function InitialValuesForForm(): (v: FormValues)
      reads this`formMode, this`editingId, this`users
      ensures formMode == Edit && editingId.Some? && HasId(users, editingId.value) ==>
        Edited(FindById(users, editingId.value).value, v) == FindById(users, editingId.value).value
      ensures !(formMode == Edit && editingId.Some? && HasId(users, editingId.value)) ==> v == BlankValues
    {
      if formMode == Edit && editingId.Some? then
        match FindById(users, editingId.value)
        case Some(u) => ValuesOf(u)
        case None => BlankValues
      else BlankValues
    }

    /** The page as first rendered. */
    constructor ()
      ensures Valid()
      ensures users == [] && error == "" && toasts == []
      ensures searchInput == "" && search == "" && filters == NoFilters && !showFilters
      ensures sortKey == Id && sortDir == Asc
      ensures page == 1 && pageSize == 10 && !infinite && itemsToShow == 10
      ensures !formOpen && formMode == Add && editingId.None?
    {
      users := [];
      error := "";
      searchInput := "";
      search := "";
      filters := NoFilters;
      showFilters := false;
      sortKey := Id;
      sortDir := Asc;
      page := 1;
      pageSize := 10;
      infinite := false;
      itemsToShow := 10;
      formOpen := false;
      formMode := Add;
      editingId := None;
      toasts := [];
    }

    /**
     * The initial load: on success the fetched records (none when the reply is empty) mapped
     * to rows; on failure the error banner, the list left as it was.
     */
    method Load(reply: Reply<Option<seq<RawUser>>>)
      modifies this`users, this`error
      ensures reply.Ok? ==> users == MapUsers(reply.value.GetOr([])) && error == ""
      ensures reply.Err? ==> users == old(users) && error == ErrorText(reply.message, LoadFailed)
    {
      error := "";
      match reply
      case Ok(data) =>
        users := MapUsers(data.GetOr([]));
      case Err(message) =>
        error := ErrorText(message, LoadFailed);
    }

    /** Typing in the search box: only the input changes until the debounce settles. */
    method TypeSearch(text: String)
      modifies this`searchInput
      ensures searchInput == text
    {
      searchInput := text;
    }

    /**
     * The debounce timer firing: the query becomes the typed text, the page goes back to 1,
     * and in infinite mode a changed query shrinks the window back to one page.
     */
    method SettleSearch()
      requires Valid()
      modifies this`search, this`page, this`itemsToShow
      ensures Valid()
      ensures search == searchInput && page == 1
      ensures itemsToShow == if infinite && search != old(search) then pageSize else old(itemsToShow)
    {
      var changed := search != searchInput;
      search := searchInput;
      page := 1;
      if infinite && changed {
        itemsToShow := pageSize;
      }
    }

    /** The Filters button. */
    method OpenFilters()
      modifies this`showFilters
      ensures showFilters
    {
      showFilters := true;
    }

    /** Closing the filter popup without applying. */
    method CloseFilters()
      modifies this`showFilters
      ensures !showFilters
    {
      showFilters := false;
    }

    /**
     * `handleApplyFilters`: the new filters, the popup closed, back to page 1; in infinite
     * mode changed filters shrink the window back to one page.
     */
    method ApplyFilters(values: Filters)
      requires Valid()
      modifies this`filters, this`showFilters, this`page, this`itemsToShow
      ensures Valid()
      ensures filters == values && !showFilters && page == 1
      ensures itemsToShow == if infinite && values != old(filters) then pageSize else old(itemsToShow)
    {
      var changed := filters != values;
      filters := values;
      showFilters := false;
      page := 1;
      if infinite && changed {
        itemsToShow := pageSize;
      }
    }

    /**
     * `handleSort`: the header click; the sort state always changes, so in infinite mode the
     * window goes back to one page. The requested page is left as it is.
     */
    method Sort(nextKey: SortKey)
      requires Valid()
      modifies this`sortKey, this`sortDir, this`itemsToShow
      ensures Valid()
      ensures (sortKey, sortDir) == SortAfter(old(sortKey), old(sortDir), nextKey)
      ensures itemsToShow == if infinite then pageSize else old(itemsToShow)
    {
      if nextKey == sortKey {
        sortDir := if sortDir == Asc then Desc else Asc;
      } else {
        sortKey := nextKey;
        sortDir := Asc;
      }
      if infinite {
        itemsToShow := pageSize;
      }
    }

    /** The infinite-scroll toggle: switching it on starts the window at one page. */
    method SetInfinite(on: bool)
      requires Valid()
      modifies this`infinite, this`itemsToShow
      ensures Valid()
      ensures infinite == on
      ensures itemsToShow == if on && !old(infinite) then pageSize else old(itemsToShow)
    {
      var changed := infinite != on;
      infinite := on;
      if on && changed {
        itemsToShow := pageSize;
      }
    }

    /** The Prev button, pressed on the shown page: one page back unless it is the first. */
    method PrevPage()
      requires Valid()
      modifies this`page
      ensures Valid()
      ensures var p := old(ShownPage()); page == if p > 1 then p - 1 else old(page)
    {
      var p := ShownPage();
      if p > 1 {
        page := p - 1;
      }
    }

    /** The Next button, pressed on the shown page: one page on unless it is the last. */
    method NextPage()
      requires Valid()
      modifies this`page
      ensures Valid()
      ensures var p := old(ShownPage());
        page == if p < TotalPages(old(Total()), pageSize) then p + 1 else old(page)
      ensures page <= TotalPages(old(Total()), pageSize) || page == old(page)
    {
      var p, total := ShownPage(), Total();
      assert p == old(ShownPage()) && total == old(Total());
      var target := Next(p, pageSize, total);
      if target.Some? {
        page := target.value;
      }
    }

    /**
     * The Rows-per-page selector: the new size and page 1; in infinite mode a changed size
     * also resets the window to the new size.
     */
    method ChangePageSize(size: nat)
      requires Valid() && size in PageSizeOptions
      modifies this`pageSize, this`page, this`itemsToShow
      ensures Valid()
      ensures pageSize == size && page == 1
      ensures itemsToShow == if infinite && size != old(pageSize) then size else old(itemsToShow)
    {
      var changed := pageSize != size;
      pageSize := size;
      page := 1;
      if infinite && changed {
        itemsToShow := size;
      }
    }

    /**
     * A scroll event in infinite mode: near the bottom, while fewer than `total` are shown,
     * one more page is shown, never more than `total`.
     */
    method Scroll(nearBottom: bool)
      requires Valid()
      modifies this`itemsToShow
      ensures Valid()
      ensures itemsToShow == if infinite && nearBottom then Advance(old(itemsToShow), old(Total()), pageSize) else old(itemsToShow)
      ensures old(itemsToShow) <= itemsToShow
      ensures old(itemsToShow) < itemsToShow ==> itemsToShow <= old(Total())
    {
      var total := Total();
      assert total == old(Total());
      if infinite && nearBottom {
        itemsToShow := Advance(itemsToShow, total, pageSize);
      }
    }

    /** The Add button: an empty form in add mode. */
    method OpenAdd()
      modifies this`formMode, this`editingId, this`formOpen
      ensures formMode == Add && editingId.None? && formOpen
    {
      formMode := Add;
      editingId := None;
      formOpen := true;
    }

    /** The Edit button of row `id`: the form in edit mode for that id. */
    method OpenEdit(id: int)
      modifies this`formMode, this`editingId, this`formOpen
      ensures formMode == Edit && editingId == Some(id) && formOpen
    {
      formMode := Edit;
      editingId := Some(id);
      formOpen := true;
    }

    /** Closing the form dialog. */
    method CloseForm()
      modifies this`formOpen
      ensures !formOpen
    {
      formOpen := false;
    }

    /**
     * `handleSubmitForm` with the server's `reply`. In add mode a success prepends the new
     * record (the server's id, or the fallback id when the reply has none), closes the
     * form, goes to page 1 and notifies; in edit mode with an id a success replaces that
     * record's four fields, closes the form and notifies. A failure shows the error and a
     * failure notice and leaves the list and the form as they were. In edit mode without an
     * id only the error banner is cleared.
     */
    method SubmitForm(values: FormValues, reply: Reply<Option<int>>)
      requires Valid()
      modifies this`users, this`error, this`formOpen, this`page, this`toasts
      ensures Valid()
      ensures formMode == Edit && editingId.None? ==>
        users == old(users) && error == "" && formOpen == old(formOpen) && page == old(page) && toasts == old(toasts)
      ensures (formMode == Add || editingId.Some?) && reply.Err? ==>
        && users == old(users) && formOpen == old(formOpen) && page == old(page)
        && error == ErrorText(reply.message, SaveFailed)
        && toasts == old(toasts) + [Toast(SaveFailed, Failure)]
      ensures formMode == Add && reply.Ok? ==>
        && users == Created(old(users), reply.value, values)
        && error == "" && !formOpen && page == 1
        && toasts == old(toasts) + [Toast(CreatedNotice, Success)]
      ensures formMode == Edit && editingId.Some? && reply.Ok? ==>
        && users == Updated(old(users), editingId.value, values)
        && error == "" && !formOpen && page == old(page)
        && toasts == old(toasts) + [Toast(UpdatedNotice, Success)]
    {
      var list, message, open, shown, notices := users, "", formOpen, page, toasts;
      if formMode == Add {
        match reply
        case Ok(serverId) =>
          list, open, shown := Created(list, serverId, values), false, 1;
          notices := notices + [Toast(CreatedNotice, Success)];
        case Err(m) =>
          message := ErrorText(m, SaveFailed);
          notices := notices + [Toast(SaveFailed, Failure)];
      } else if editingId.Some? {
        match reply
        case Ok(_) =>
          list, open := Updated(list, editingId.value, values), false;
          notices := notices + [Toast(UpdatedNotice, Success)];
        case Err(m) =>
          message := ErrorText(m, SaveFailed);
          notices := notices + [Toast(SaveFailed, Failure)];
      }
      users, error, formOpen, page, toasts := list, message, open, shown, notices;
    }

    /**
     * `handleDelete` with the user's answer to the confirmation and the server's reply:
     * declined, nothing happens; confirmed, the record is removed at once, then either a
     * success notice or the error and a failure notice, the removal not being undone.
     */
    method Delete(id: int, confirmed: bool, reply: Reply<()>)
      modifies this`users, this`error, this`toasts
      ensures !confirmed ==> users == old(users) && error == old(error) && toasts == old(toasts)
      ensures confirmed ==> users == Removed(old(users), id)
      ensures confirmed && reply.Ok? ==> error == "" && toasts == old(toasts) + [Toast(DeletedNotice, Success)]
      ensures confirmed && reply.Err? ==>
        error == ErrorText(reply.message, DeleteFailed) && toasts == old(toasts) + [Toast(DeleteFailed, Failure)]
    {
      if !confirmed {
        return;
      }
      error := "";
      users := Removed(users, id);
      match reply
      case Ok(_) =>
        toasts := toasts + [Toast(DeletedNotice, Success)];
      case Err(message) =>
        error := ErrorText(message, DeleteFailed);
        toasts := toasts + [Toast(DeleteFailed, Failure)];
    }
  }

  /** Seeding the edit form from a record and saving it unchanged leaves the list unchanged. */
  lemma EditUnchangedKeepsList(view: UsersView, id: int)
    requires view.formMode == Edit && view.editingId == Some(id)
    requires UniqueIds(view.users) && HasId(view.users, id)
    ensures Updated(view.users, id, view.InitialValuesForForm()) == view.users
  {
    var u := FindById(view.users, id).value;
    assert view.InitialValuesForForm() == ValuesOf(u);
    UpdatedWithOwnValues(view.users, id);
  }
}
