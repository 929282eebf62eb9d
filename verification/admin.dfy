/** The admin shell: where `checkAdminAuth` sends a visitor, the restricted
    user's flag, the side menu each user sees, and the notification badges. */
module Admin {
  import opened Js
  import opened Seqs
  import opened Tables

  /** What the authentication lookup gave: it threw, no user is signed in,
      or a user with this email (`Null` when the account has none). */
  datatype Session = AuthFailed | SignedOut | SignedIn(email: Value)

  datatype Route = ToLogin | ToClientDashboard | StayOnAdmin

  /** The Clients lookup `.eq('Email', email).single()` finds a client only
      when exactly one row carries that email. */
  predicate IsClient(clients: seq<Row>, email: Value) {
    SingleFound(clients, [(Email, email)])
  }

  /** `allowedAdminEmails.includes(email)`. */
  predicate Allowlisted(allowlist: set<string>, email: Value) {
    email.Text? && email.s in allowlist
  }

  /** `checkAdminAuth`. The allowlist of admin emails is a parameter. */
  function CheckAdminAuth(s: Session, clients: seq<Row>, allowlist: set<string>): Route {
    match s
    case AuthFailed => ToLogin
    case SignedOut => ToLogin
    case SignedIn(email) =>
      if IsClient(clients, email) then ToClientDashboard
      else if !Truthy(email) || !Allowlisted(allowlist, email) then ToLogin
      else StayOnAdmin
  }

  /** A visitor stays exactly when signed in with a non-empty allowlisted
      email that no client row carries. */
  lemma StaysIff(s: Session, clients: seq<Row>, allowlist: set<string>)
    ensures CheckAdminAuth(s, clients, allowlist) == StayOnAdmin
            <==> s.SignedIn? && s.email.Text? && s.email.s != "" && s.email.s in allowlist && !IsClient(clients, s.email)
  {
  }

  /** A client goes to the client dashboard even when allowlisted: the
      Clients check comes first. */
  lemma ClientCheckedFirst(email: Value, clients: seq<Row>, allowlist: set<string>)
    requires IsClient(clients, email)
    ensures CheckAdminAuth(SignedIn(email), clients, allowlist) == ToClientDashboard
  {
  }

  /** Every visitor who does not stay and is not a client goes to the login
      page: a failed lookup, no user, no email, or an email off the list. */
  lemma OthersToLogin(s: Session, clients: seq<Row>, allowlist: set<string>)
    requires !(s.SignedIn? && IsClient(clients, s.email))
    requires CheckAdminAuth(s, clients, allowlist) != StayOnAdmin
    ensures CheckAdminAuth(s, clients, allowlist) == ToLogin
  {
  }

  /** Without an email no row can match the lookup, so a signed-in user
      without one goes to the login page. */
  lemma NoEmailToLogin(clients: seq<Row>, allowlist: set<string>)
    ensures CheckAdminAuth(SignedIn(Null), clients, allowlist) == ToLogin
  {
    assert Select(clients, [(Email, Null)]) == [] by {
      forall i | 0 <= i < |clients| ensures !MatchesAll(clients[i], [(Email, Null)]) {
        MatchesOne(clients[i], Email, Null);
      }
      FilterKeepsNone(clients, row => MatchesAll(row, [(Email, Null)]));
    }
  }

  // ----- menu -----

  /** The restricted flag: the stored email equals the one restricted
      address. */
  predicate IsRestrictedUser(storedEmail: Value, restrictedEmail: string) {
    storedEmail == Text(restrictedEmail)
  }

  datatype MenuEntry = Item(name: string, path: string, restricted: bool) | Divider(name: string)

  /** The side menu, in order. */
  const Menu: seq<MenuEntry> := [
    Item("Dashboard", "/admin/dashboard", true),
    Item("Inventory", "/admin/inventory", true),
    Item("Clients", "/admin/clients", false),
    Item("Documents", "/admin/documents", false),
    Item("Payment", "/admin/payment", true),
    Item("Balance", "/admin/balance", true),
    Item("Report", "/admin/report", true),
    Divider("Support"),
    Item("Ticket", "/admin/ticket", false),
    Item("Team Chat", "/admin/team-chat", false)
  ]

  predicate IsRestrictedEntry(e: MenuEntry) {
    e.Item? && e.restricted
  }

  /** The entries drawn: a restricted user skips the restricted items. */
  function VisibleMenu(items: seq<MenuEntry>, restrictedUser: bool): seq<MenuEntry> {
    Filter(items, e => !(restrictedUser && IsRestrictedEntry(e)))
  }

  /** Other users see every entry; a restricted user sees exactly the
      entries that are not restricted, in menu order. */
  lemma VisibleMenuSpec(items: seq<MenuEntry>, restrictedUser: bool, e: MenuEntry)
    ensures !restrictedUser ==> VisibleMenu(items, restrictedUser) == items
    ensures restrictedUser ==> (e in VisibleMenu(items, restrictedUser) <==> e in items && !IsRestrictedEntry(e))
    ensures IsSubsequence(VisibleMenu(items, restrictedUser), items)
  {
    var keep := e => !(restrictedUser && IsRestrictedEntry(e));
    FilterIsSubsequence(items, keep);
    if !restrictedUser {
      FilterKeepsAll(items, keep);
    }
    if e in items && !IsRestrictedEntry(e) {
      var k :| 0 <= k < |items| && items[k] == e;
    }
  }

  /** For the restricted user, an entry shows exactly when it is in the menu
      and not restricted. */
  lemma RestrictedUserSees(items: seq<MenuEntry>, e: MenuEntry)
    ensures e in VisibleMenu(items, true) <==> e in items && !IsRestrictedEntry(e)
  {
    VisibleMenuSpec(items, true, e);
  }

  /** The restricted user sees Clients, Documents, the Support divider,
      Ticket and Team Chat. */
  lemma RestrictedMenuShows()
    ensures Menu[2] in VisibleMenu(Menu, true) && Menu[3] in VisibleMenu(Menu, true)
    ensures Menu[7] in VisibleMenu(Menu, true) && Menu[8] in VisibleMenu(Menu, true) && Menu[9] in VisibleMenu(Menu, true)
  {
    RestrictedUserSees(Menu, Menu[2]);
    RestrictedUserSees(Menu, Menu[3]);
    RestrictedUserSees(Menu, Menu[7]);
    RestrictedUserSees(Menu, Menu[8]);
    RestrictedUserSees(Menu, Menu[9]);
  }

  /** The restricted user does not see Dashboard, Inventory, Payment,
      Balance or Report. */
  lemma RestrictedMenuHides()
    ensures Menu[0] !in VisibleMenu(Menu, true) && Menu[1] !in VisibleMenu(Menu, true)
    ensures Menu[4] !in VisibleMenu(Menu, true) && Menu[5] !in VisibleMenu(Menu, true) && Menu[6] !in VisibleMenu(Menu, true)
  {
    assert IsRestrictedEntry(Menu[0]) && IsRestrictedEntry(Menu[1]) && IsRestrictedEntry(Menu[4]);
    assert IsRestrictedEntry(Menu[5]) && IsRestrictedEntry(Menu[6]);
    RestrictedUserSees(Menu, Menu[0]);
    RestrictedUserSees(Menu, Menu[1]);
    RestrictedUserSees(Menu, Menu[4]);
    RestrictedUserSees(Menu, Menu[5]);
    RestrictedUserSees(Menu, Menu[6]);
  }

  // ----- badges -----

  datatype Badge = NoBadge | CountBadge(count: int)

  /** The badge an item carries: pending payments on Payment, new tickets on
      Ticket, each only when its count is positive. */
  function BadgeOf(e: MenuEntry, pendingPayments: int, newTickets: int): (r: Badge)
    ensures r.CountBadge? ==> r.count > 0
    ensures r.CountBadge? ==> e.Item? && (e.name == "Payment" || e.name == "Ticket")
  {
    if e.Divider? then NoBadge
    else if e.name == "Payment" && pendingPayments > 0 then CountBadge(pendingPayments)
    else if e.name == "Ticket" && newTickets > 0 then CountBadge(newTickets)
    else NoBadge
  }

  /** A restricted user never sees the payment badge, since Payment is a
      restricted item; the ticket badge still shows when tickets are new. */
  lemma RestrictedBadges(pendingPayments: int, newTickets: int)
    ensures forall e :: e in VisibleMenu(Menu, true) ==> !(e.Item? && e.name == "Payment")
    ensures newTickets > 0 ==> exists e :: e in VisibleMenu(Menu, true) && BadgeOf(e, pendingPayments, newTickets) == CountBadge(newTickets)
  {
    forall e | e in VisibleMenu(Menu, true) ensures !(e.Item? && e.name == "Payment") {
      VisibleMenuSpec(Menu, true, e);
      assert e in Menu <==> exists k :: 0 <= k < 10 && Menu[k] == e;
    }
    VisibleMenuSpec(Menu, true, Menu[8]);
  }
}
