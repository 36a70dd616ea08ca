/** The participant's own view of a group (`UserView.jsx`): one poll of
    `fetchUserStatus` decides the view status from the signed-in user and
    the participation records found for them, and `handleOpenGift` opens
    the gift once the draw is done. The remote lookups are replaced by
    their results: the records found (or `None` when the request failed)
    and the user names by user id (a missing id makes the lookup fail). */
module UserView {
  import Common

  /** The `status` state of the view. `WaitingDraw` is tested by the page
      but never assigned. */
  datatype ViewStatus = Loading | NotRegistered | Pending | Approved | DrawDone | WaitingDraw

  /** The signed-in user read from local storage. */
  datatype CurrentUser = CurrentUser(id: Common.Option<string>, name: string)

  /** There is a signed-in user with a (truthy) id. */
  predicate SignedIn(user: Common.Option<CurrentUser>)
  {
    user.Some? && Common.Truthy(user.value.id)
  }

  /** What one poll does to `status` and `gifteeName`. */
  datatype Decision =
    | Unchanged              // a rejected record, or a failed giftee lookup
    | Status(status: ViewStatus)
    | Giftee(name: string)   // the draw is done and this is the giftee's name

  /** The decision of lines 30-58 for the records found: only the first
      record is consulted. */
  function Decide(records: seq<Common.Participant>, users: map<string, string>): (d: Decision)
    ensures d == Status(NotRegistered) <==> records == []
    ensures d == Status(Pending) <==> records != [] && records[0].status == Common.Pending
    ensures d == Status(Approved) <==>
              records != [] && records[0].status == Common.Approved && !Common.Truthy(records[0].gifteeId)
    ensures d.Giftee? <==>
              records != [] && records[0].status == Common.Approved && Common.Truthy(records[0].gifteeId) &&
              records[0].gifteeId.value in users
    ensures d.Giftee? ==> d.name == users[records[0].gifteeId.value]
    ensures d.Status? ==> d.status in {NotRegistered, Pending, Approved}
  {
    if records == [] then Status(NotRegistered)
    else
      var mine := records[0];
      match mine.status
      case Pending => Status(Pending)
      case Approved =>
        if Common.Truthy(mine.gifteeId) then
          if mine.gifteeId.value in users then Giftee(users[mine.gifteeId.value]) else Unchanged
        else Status(Approved)
      case Rejected => Unchanged
  }

  /** Only the first record matters, and a rejected one, or a giftee whose
      user cannot be found, leaves the view as it was. */
  lemma DecideFirstRecord(records: seq<Common.Participant>, users: map<string, string>)
    requires records != []
    ensures Decide(records, users) == Decide([records[0]], users)
    ensures Decide(records, users) == Unchanged <==>
              records[0].status == Common.Rejected ||
              (records[0].status == Common.Approved && Common.Truthy(records[0].gifteeId) &&
               records[0].gifteeId.value !in users)
  {
  }

  /** The participant's view of one group. */
  class UserView {
    var loading: bool
    var status: ViewStatus
    var gifteeName: Common.Option<string>
    var isOpened: bool
    /** Set when the view sends the visitor back to `/`. */
    var navigatedHome: bool

    /** The status is never `WaitingDraw`, and a done draw always comes with
        a giftee name. */
    ghost predicate Valid()
      reads this
    {
      status != WaitingDraw && (status == DrawDone ==> gifteeName.Some?)
    }

    /** The initial state of lines 12-15. */
    constructor ()
      ensures loading && status == Loading && gifteeName == Common.None
      ensures !isOpened && !navigatedHome && Valid()
    {
      loading := true;
      status := Loading;
      gifteeName := Common.None;
      isOpened := false;
      navigatedHome := false;
    }

    /** One run of `fetchUserStatus` (lines 18-65). `records` is the result
        of the participation lookup, `None` when it failed; `users` maps user
        ids to names for the giftee lookup. */
    method FetchUserStatus(user: Common.Option<CurrentUser>, records: Common.Option<seq<Common.Participant>>,
                           users: map<string, string>)
      requires Valid()
      modifies this`loading, this`status, this`gifteeName, this`navigatedHome
      ensures Valid()
      ensures !SignedIn(user) ==>
                navigatedHome && loading == old(loading) &&
                status == old(status) && gifteeName == old(gifteeName)
      ensures SignedIn(user) ==> !loading && navigatedHome == old(navigatedHome)
      ensures SignedIn(user) && records.None? ==> status == old(status) && gifteeName == old(gifteeName)
      ensures SignedIn(user) && records.Some? ==>
                match Decide(records.value, users)
                case Unchanged => status == old(status) && gifteeName == old(gifteeName)
                case Status(s) => status == s && gifteeName == old(gifteeName)
                case Giftee(name) => status == DrawDone && gifteeName == Common.Some(name)
    {
      if !SignedIn(user) {
        navigatedHome := true;
        return;
      }
      if records.None? {
        loading := false;
        return;
      }
      var found := records.value;
      if |found| == 0 {
        status := NotRegistered;
        loading := false;
        return;
      }
      var mine := found[0];
      if mine.status == Common.Pending {
        status := Pending;
      } else if mine.status == Common.Approved {
        if Common.Truthy(mine.gifteeId) {
          if mine.gifteeId.value !in users {
            // the giftee lookup fails and the error handler only stops loading
            loading := false;
            return;
          }
          gifteeName := Common.Some(users[mine.gifteeId.value]);
          status := DrawDone;
        } else {
          status := Approved;
        }
      }
      loading := false;
    }

    /** `handleOpenGift` (lines 74-77): the gift is open, and nothing else
        changes. */
    method HandleOpenGift()
      requires Valid()
      modifies this`isOpened
      ensures isOpened && Valid()
    {
      isOpened := true;
    }
  }
}
