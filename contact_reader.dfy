/** The contact reader of the CRM: business-card rows (potential contacts),
    the filed contact list, opportunity-contact links, and the joins and
    searches built on them. Fetching and caching a sheet range is outside the
    model; every reader starts from the rows that fetch returned. */
module ContactReader {
  import opened Common
  import opened Text

  // ------------------------------------------------------------------ rows

  /** `row[i] || ''`: a cell the sheet did not return reads as empty. */
  function Cell(row: seq<string>, i: nat): string
  {
    if i < |row| then row[i] else ""
  }

  /** Column positions of the business-card sheet (configuration). */
  datatype CardColumns = CardColumns(
    time: nat, name: nat, company: nat, position: nat, department: nat,
    phone: nat, mobile: nat, email: nat, website: nat, address: nat,
    confidence: nat, driveLink: nat, status: nat, userNickname: nat)

  /** The configured columns, in field order. */
  function Columns(k: CardColumns): seq<nat>
  {
    [k.time, k.name, k.company, k.position, k.department, k.phone, k.mobile,
     k.email, k.website, k.address, k.confidence, k.driveLink, k.status, k.userNickname]
  }

  /** No two fields of a business card share a column. */
  predicate CardColumnsDistinct(k: CardColumns)
  {
    forall i, j :: 0 <= i < j < |Columns(k)| ==> Columns(k)[i] != Columns(k)[j]
  }

  /** A business card (potential contact). It has no id of its own: it is
      addressed by `rowIndex`, its 1-based row in the sheet below the header. */
  datatype Card = Card(
    rowIndex: int, createdTime: string, name: string, company: string,
    position: string, department: string, phone: string, mobile: string,
    email: string, website: string, address: string, confidence: string,
    driveLink: string, status: string, userNickname: string)

  /** The fields of a card stored in columns, in field order. */
  function Fields(c: Card): seq<string>
  {
    [c.createdTime, c.name, c.company, c.position, c.department, c.phone, c.mobile,
     c.email, c.website, c.address, c.confidence, c.driveLink, c.status, c.userNickname]
  }

  /** The `getContacts` row parser, for the data row at 0-based position `index`. */
  function ParseCard(k: CardColumns, row: seq<string>, index: nat): (c: Card)
    ensures c.rowIndex == index + 2
  {
    Card(index + 2, Cell(row, k.time), Cell(row, k.name), Cell(row, k.company),
         Cell(row, k.position), Cell(row, k.department), Cell(row, k.phone),
         Cell(row, k.mobile), Cell(row, k.email), Cell(row, k.website),
         Cell(row, k.address), Cell(row, k.confidence), Cell(row, k.driveLink),
         Cell(row, k.status), Cell(row, k.userNickname))
  }

  /** All fetched rows, parsed in fetch order. */
  function ParseCards(k: CardColumns, rows: seq<seq<string>>): (cards: seq<Card>)
    ensures |cards| == |rows|
    ensures forall i :: 0 <= i < |rows| ==> cards[i] == ParseCard(k, rows[i], i)
  {
    seq(|rows|, i requires 0 <= i < |rows| => ParseCard(k, rows[i], i))
  }

  /** Every card's `rowIndex` is its position in the fetched range plus 2, so
      distinct rows give distinct `rowIndex` values. */
  lemma CardRowIndexes(k: CardColumns, rows: seq<seq<string>>, i: int, j: int)
    requires 0 <= i < |rows| && 0 <= j < |rows|
    ensures ParseCards(k, rows)[i].rowIndex == i + 2
    ensures ParseCards(k, rows)[i].rowIndex == ParseCards(k, rows)[j].rowIndex ==> i == j
  {
  }

  /** Missing trailing cells read as empty: every field whose column lies past
      the end of the row is `''`, and the others are the row's cells. */
  lemma MissingCellsEmpty(k: CardColumns, row: seq<string>, index: nat, f: int)
    requires 0 <= f < |Columns(k)|
    ensures Fields(ParseCard(k, row, index))[f] == if Columns(k)[f] < |row| then row[Columns(k)[f]] else ""
  {
  }

  /** The value stored in column `j`: the field of the first column equal to `j`. */
  function ValueInColumn(cols: seq<nat>, vals: seq<string>, j: nat): string
    requires |cols| == |vals|
  {
    if cols == [] then "" else if cols[0] == j then vals[0] else ValueInColumn(cols[1..], vals[1..], j)
  }

  lemma {:induction false} ValueInOwnColumn(cols: seq<nat>, vals: seq<string>, f: int)
    requires |cols| == |vals| && 0 <= f < |cols|
    requires forall i, j :: 0 <= i < j < |cols| ==> cols[i] != cols[j]
    ensures ValueInColumn(cols, vals, cols[f]) == vals[f]
  {
    if f > 0 {
      assert cols[0] != cols[f];
      ValueInOwnColumn(cols[1..], vals[1..], f - 1);
    }
  }

  function MaxOf(s: seq<nat>): (m: nat)
    ensures forall i :: 0 <= i < |s| ==> s[i] <= m
  {
    if s == [] then 0 else var m := MaxOf(s[1..]); if s[0] <= m then m else s[0]
  }

  /** The row a card is stored as: each field in its configured column, other
      cells empty. */
  function CardRow(k: CardColumns, c: Card): (row: seq<string>)
    ensures forall f :: 0 <= f < |Columns(k)| ==> Columns(k)[f] < |row|
  {
    var width := 1 + MaxOf(Columns(k));
    seq(width, j requires 0 <= j < width => ValueInColumn(Columns(k), Fields(c), j))
  }

  /** The parser reads back every field of a stored card, provided the columns
      are distinct; the row index comes from the row's position. */
  lemma ParseCardRow(k: CardColumns, c: Card, index: nat)
    requires CardColumnsDistinct(k)
    requires c.rowIndex == index + 2
    ensures ParseCard(k, CardRow(k, c), index) == c
  {
    CellOfCardRow(k, c, 0);
    CellOfCardRow(k, c, 1);
    CellOfCardRow(k, c, 2);
    CellOfCardRow(k, c, 3);
    CellOfCardRow(k, c, 4);
    CellOfCardRow(k, c, 5);
    CellOfCardRow(k, c, 6);
    CellOfCardRow(k, c, 7);
    CellOfCardRow(k, c, 8);
    CellOfCardRow(k, c, 9);
    CellOfCardRow(k, c, 10);
    CellOfCardRow(k, c, 11);
    CellOfCardRow(k, c, 12);
    CellOfCardRow(k, c, 13);
  }

  lemma CellOfCardRow(k: CardColumns, c: Card, f: int)
    requires CardColumnsDistinct(k)
    requires 0 <= f < |Columns(k)|
    ensures Cell(CardRow(k, c), Columns(k)[f]) == Fields(c)[f]
  {
    ValueInOwnColumn(Columns(k), Fields(c), f);
  }

  /** Column positions of the opportunity-contact link sheet (configuration). */
  datatype LinkColumns = LinkColumns(
    linkId: nat, opportunityId: nat, contactId: nat, createTime: nat, status: nat, creator: nat)

  datatype Link = Link(
    linkId: string, opportunityId: string, contactId: string,
    createTime: string, status: string, creator: string)

  /** The `getAllOppContactLinks` row parser. */
  function ParseLink(k: LinkColumns, row: seq<string>): Link
  {
    Link(Cell(row, k.linkId), Cell(row, k.opportunityId), Cell(row, k.contactId),
         Cell(row, k.createTime), Cell(row, k.status), Cell(row, k.creator))
  }

  /** A filed contact, one row of the contact list (columns A to M). */
  datatype ListedContact = ListedContact(
    contactId: string, sourceId: string, name: string, companyId: string,
    department: string, position: string, mobile: string, phone: string,
    email: string, createdTime: string, lastUpdateTime: string, creator: string,
    lastModifier: string)

  /** The `getContactList` row parser. */
  function ParseListedContact(row: seq<string>): ListedContact
  {
    ListedContact(Cell(row, 0), Cell(row, 1), Cell(row, 2), Cell(row, 3), Cell(row, 4),
                  Cell(row, 5), Cell(row, 6), Cell(row, 7), Cell(row, 8), Cell(row, 9),
                  Cell(row, 10), Cell(row, 11), Cell(row, 12))
  }

  /** The thirteen cells a filed contact is stored as, columns A to M. */
  function ContactListRow(c: ListedContact): seq<string>
  {
    [c.contactId, c.sourceId, c.name, c.companyId, c.department, c.position, c.mobile,
     c.phone, c.email, c.createdTime, c.lastUpdateTime, c.creator, c.lastModifier]
  }

  /** `getContactList` reads columns A to M positionally: a stored contact reads
      back unchanged, cells past column M are ignored, and a row cut short
      reads its missing cells as empty. */
  lemma ParseContactListRow(c: ListedContact, extra: seq<string>)
    ensures ParseListedContact(ContactListRow(c) + extra) == c
    ensures ParseListedContact([]) == ListedContact("", "", "", "", "", "", "", "", "", "", "", "", "")
  {
  }

  // -------------------------------------------------------------- getContacts

  /** Default cap of `getContacts`. */
  const DefaultLimit := 2000

  /** Cap used by `getLinkedContacts` when it loads the cards. */
  const JoinLimit := 9999

  /** The cached cards are the parsed rows in some order: the sorter by
      creation time only reorders them. */
  predicate SortedFrom(k: CardColumns, rows: seq<seq<string>>, sorted: seq<Card>)
  {
    multiset(sorted) == multiset(ParseCards(k, rows))
  }

  /** `getContacts(limit)`: the first `limit` cards of the sorted cache. */
  function GetContacts(sorted: seq<Card>, limit: int): (r: seq<Card>)
    ensures 0 <= limit ==> r == sorted[..Min(limit, |sorted|)]
  {
    Slice(sorted, 0, limit)
  }

  /** `getContacts` returns at most `limit` cards, all of them parsed rows, and
      drops none on its own: with a cap at least the number of rows, every row
      is there, including those whose name and company are both empty. */
  lemma GetContactsKeepsRows(k: CardColumns, rows: seq<seq<string>>, sorted: seq<Card>, limit: int)
    requires SortedFrom(k, rows, sorted)
    requires 0 <= limit
    ensures |GetContacts(sorted, limit)| == Min(limit, |rows|)
    ensures multiset(GetContacts(sorted, limit)) <= multiset(ParseCards(k, rows))
    ensures |rows| <= limit ==> multiset(GetContacts(sorted, limit)) == multiset(ParseCards(k, rows))
  {
    var n := Min(limit, |sorted|);
    assert |sorted| == |rows| by {
      assert |multiset(sorted)| == |multiset(ParseCards(k, rows))|;
    }
    assert sorted == sorted[..n] + sorted[n..];
    assert multiset(sorted) == multiset(sorted[..n]) + multiset(sorted[n..]);
  }

  // ------------------------------------------------------- getLinkedContacts

  datatype Company = Company(companyId: string, companyName: string)

  /** A filed contact as `getLinkedContacts` returns it. */
  datatype LinkedContact = LinkedContact(
    contactId: string, sourceId: string, name: string, companyId: string,
    department: string, position: string, mobile: string, phone: string,
    email: string, companyName: string, driveLink: string)

  /** A link that ties a contact to opportunity `opportunityId`. */
  predicate IsActiveFor(l: Link, opportunityId: string)
  {
    l.opportunityId == opportunityId && l.status == "active"
  }

  /** The contact ids of the active links of one opportunity. */
  function ActiveContactIds(links: seq<Link>, opportunityId: string): set<string>
  {
    set i | 0 <= i < |links| && IsActiveFor(links[i], opportunityId) :: links[i].contactId
  }

  /** `companyId -> companyName`, the last duplicate id winning. */
  function CompanyNames(companies: seq<Company>): map<string, string>
  {
    MapFromEntries(seq(|companies|, i requires 0 <= i < |companies| =>
      (companies[i].companyId, companies[i].companyName)))
  }

  /** `rowIndex -> card`. */
  function CardsByRow(cards: seq<Card>): map<int, Card>
  {
    MapFromEntries(seq(|cards|, i requires 0 <= i < |cards| => (cards[i].rowIndex, cards[i])))
  }

  /** `companyNameMap.get(companyId) || companyId`. */
  function CompanyNameOf(names: map<string, string>, companyId: string): (r: string)
    ensures companyId !in names ==> r == companyId
    ensures r == "" ==> companyId == ""
  {
    match Get(names, companyId)
    case Some(n) => if n != "" then n else companyId
    case None => companyId
  }

  const CardPrefix := "BC-"

  /** The drive link of the card a `BC-<rowIndex>` source id points to, or `''`. */
  function DriveLinkOf(sourceId: string, byRow: map<int, Card>): (r: string)
    ensures !StartsWith(sourceId, CardPrefix) ==> r == ""
    ensures r != "" ==> exists n :: n in byRow && r == byRow[n].driveLink
  {
    if sourceId != "" && StartsWith(sourceId, CardPrefix) then
      match ParseInt(ReplaceFirst(sourceId, CardPrefix, ""))
      case Some(rowIndex) =>
        (match Get(byRow, rowIndex)
         case Some(card) => card.driveLink
         case None => "")
      case None => ""
    else ""
  }

  /** One joined record: the contact's own fields, its company name and the
      drive link of its source card. */
  function Enrich(c: ListedContact, names: map<string, string>, byRow: map<int, Card>): LinkedContact
  {
    LinkedContact(c.contactId, c.sourceId, c.name, c.companyId, c.department, c.position,
                  c.mobile, c.phone, c.email, CompanyNameOf(names, c.companyId),
                  DriveLinkOf(c.sourceId, byRow))
  }

  /** The filed contacts of the active links, in contact-list order, joined
      with the company list and the first `JoinLimit` cards. */
  function LinkedContacts(links: seq<Link>, opportunityId: string, contacts: seq<ListedContact>,
                          companies: seq<Company>, cards: seq<Card>): (r: seq<LinkedContact>)
    ensures |r| <= |contacts|
  {
    var ids := ActiveContactIds(links, opportunityId);
    var kept := Filter(contacts, (c: ListedContact) => c.contactId in ids);
    var names := CompanyNames(companies);
    var byRow := CardsByRow(cards);
    seq(|kept|, i requires 0 <= i < |kept| => Enrich(kept[i], names, byRow))
  }

  /** `getLinkedContacts(opportunityId)`: collects the ids of the opportunity's
      active links, returns `[]` when there are none, and otherwise joins the
      filed contacts with those ids. `cards` is the `getContacts(9999)` result. */
  method GetLinkedContacts(links: seq<Link>, opportunityId: string, contacts: seq<ListedContact>,
                           companies: seq<Company>, cards: seq<Card>)
    returns (r: seq<LinkedContact>)
    ensures r == LinkedContacts(links, opportunityId, contacts, companies, cards)
  {
    var ids: set<string> := {};
    for i := 0 to |links|
      invariant ids == set j | 0 <= j < i && IsActiveFor(links[j], opportunityId) :: links[j].contactId
    {
      if links[i].opportunityId == opportunityId && links[i].status == "active" {
        ids := ids + {links[i].contactId};
      }
    }
    assert ids == ActiveContactIds(links, opportunityId);
    if |ids| == 0 {
      NoIdsNoContacts(contacts, ids);
      return [];
    }
    var names := CompanyNames(companies);
    var byRow := CardsByRow(cards);
    var kept := Filter(contacts, (c: ListedContact) => c.contactId in ids);
    r := seq(|kept|, i requires 0 <= i < |kept| => Enrich(kept[i], names, byRow));
  }

  /** Membership of the join: a record is returned exactly for each filed
      contact whose id some active link of the opportunity carries. */
  lemma LinkedContactsMembers(links: seq<Link>, opportunityId: string, contacts: seq<ListedContact>,
                              companies: seq<Company>, cards: seq<Card>, c: ListedContact)
    requires c in contacts
    requires exists l :: l in links && IsActiveFor(l, opportunityId) && l.contactId == c.contactId
    ensures Enrich(c, CompanyNames(companies), CardsByRow(cards))
              in LinkedContacts(links, opportunityId, contacts, companies, cards)
  {
    var l :| l in links && IsActiveFor(l, opportunityId) && l.contactId == c.contactId;
    var i :| 0 <= i < |links| && links[i] == l;
    assert c.contactId in ActiveContactIds(links, opportunityId);
    var ids := ActiveContactIds(links, opportunityId);
    var kept := Filter(contacts, (x: ListedContact) => x.contactId in ids);
    assert c in kept;
    var j :| 0 <= j < |kept| && kept[j] == c;
    assert LinkedContacts(links, opportunityId, contacts, companies, cards)[j]
           == Enrich(c, CompanyNames(companies), CardsByRow(cards));
  }

  /** Nothing outside the active links is returned: every record comes from a
      filed contact that an active link of the opportunity names. */
  lemma LinkedContactsOnlyActive(links: seq<Link>, opportunityId: string, contacts: seq<ListedContact>,
                                 companies: seq<Company>, cards: seq<Card>, x: LinkedContact)
    requires x in LinkedContacts(links, opportunityId, contacts, companies, cards)
    ensures exists c :: c in contacts && c.contactId == x.contactId
                        && x == Enrich(c, CompanyNames(companies), CardsByRow(cards))
    ensures exists l :: l in links && IsActiveFor(l, opportunityId) && l.contactId == x.contactId
  {
    var ids := ActiveContactIds(links, opportunityId);
    var kept := Filter(contacts, (c: ListedContact) => c.contactId in ids);
    var i :| 0 <= i < |kept| && LinkedContacts(links, opportunityId, contacts, companies, cards)[i] == x;
    assert kept[i] in contacts && kept[i].contactId in ids;
    var j :| 0 <= j < |links| && IsActiveFor(links[j], opportunityId) && links[j].contactId == x.contactId;
    assert links[j] in links;
  }

  /** The join keeps the contact list's order: splitting the contact list
      splits the result the same way. */
  lemma LinkedContactsAppend(links: seq<Link>, opportunityId: string, a: seq<ListedContact>,
                             b: seq<ListedContact>, companies: seq<Company>, cards: seq<Card>)
    ensures LinkedContacts(links, opportunityId, a + b, companies, cards)
            == LinkedContacts(links, opportunityId, a, companies, cards)
               + LinkedContacts(links, opportunityId, b, companies, cards)
  {
    var ids := ActiveContactIds(links, opportunityId);
    FilterAppend(a, b, (c: ListedContact) => c.contactId in ids);
  }

  lemma NoIdsNoContacts(contacts: seq<ListedContact>, ids: set<string>)
    requires ids == {}
    ensures Filter(contacts, (c: ListedContact) => c.contactId in ids) == []
  {
    FilterNone(contacts, (c: ListedContact) => c.contactId in ids);
  }

  /** With no active link for the opportunity the join is empty. */
  lemma NoActiveLinksNoContacts(links: seq<Link>, opportunityId: string, contacts: seq<ListedContact>,
                                companies: seq<Company>, cards: seq<Card>)
    requires forall l :: l in links ==> !IsActiveFor(l, opportunityId)
    ensures LinkedContacts(links, opportunityId, contacts, companies, cards) == []
  {
    forall i | 0 <= i < |links|
      ensures !IsActiveFor(links[i], opportunityId)
    {
      assert links[i] in links;
    }
    assert ActiveContactIds(links, opportunityId) == {};
    NoIdsNoContacts(contacts, ActiveContactIds(links, opportunityId));
  }

  /** The company name is the company list's name for the id, the last
      duplicate id winning, and falls back to the raw id when the id is not
      listed or its name is empty. */
  lemma CompanyNameLookup(companies: seq<Company>, companyId: string, i: int)
    requires 0 <= i < |companies| && companies[i].companyId == companyId
    requires forall j :: i < j < |companies| ==> companies[j].companyId != companyId
    ensures CompanyNameOf(CompanyNames(companies), companyId)
            == if companies[i].companyName != "" then companies[i].companyName else companyId
  {
    var entries := seq(|companies|, j requires 0 <= j < |companies| =>
      (companies[j].companyId, companies[j].companyName));
    LastEntryWins(entries, i);
  }

  lemma CompanyNameUnlisted(companies: seq<Company>, companyId: string)
    requires forall j :: 0 <= j < |companies| ==> companies[j].companyId != companyId
    ensures CompanyNameOf(CompanyNames(companies), companyId) == companyId
  {
  }

  /** A drive link is attached only through a `BC-<n>` source id whose
      remainder `parseInt` reads as `n`, and only from the card with
      `rowIndex` `n` (the last one, should several share it). */
  lemma DriveLinkSource(sourceId: string, cards: seq<Card>)
    requires DriveLinkOf(sourceId, CardsByRow(cards)) != ""
    ensures StartsWith(sourceId, CardPrefix)
    ensures ParseInt(sourceId[|CardPrefix|..]).Some?
    ensures exists i :: 0 <= i < |cards| && cards[i].rowIndex == ParseInt(sourceId[|CardPrefix|..]).value
                        && cards[i].driveLink == DriveLinkOf(sourceId, CardsByRow(cards))
  {
    ReplaceLeadingPrefix(sourceId, CardPrefix);
    var n := ParseInt(sourceId[|CardPrefix|..]).value;
    var entries := seq(|cards|, i requires 0 <= i < |cards| => (cards[i].rowIndex, cards[i]));
    GetFindsLastEntry(entries, n);
  }

  /** Conversely, a `BC-<n>` source id whose card is loaded gets that card's
      drive link. */
  lemma DriveLinkFound(sourceId: string, cards: seq<Card>, i: int)
    requires StartsWith(sourceId, CardPrefix)
    requires ParseInt(sourceId[|CardPrefix|..]).Some?
    requires 0 <= i < |cards| && cards[i].rowIndex == ParseInt(sourceId[|CardPrefix|..]).value
    requires forall j :: i < j < |cards| ==> cards[j].rowIndex != cards[i].rowIndex
    ensures DriveLinkOf(sourceId, CardsByRow(cards)) == cards[i].driveLink
  {
    ReplaceLeadingPrefix(sourceId, CardPrefix);
    var entries := seq(|cards|, j requires 0 <= j < |cards| => (cards[j].rowIndex, cards[j]));
    LastEntryWins(entries, i);
  }

  /** Looked up by `rowIndex` among loaded cards, a card is the parse of the
      sheet row at that position, whatever the sorter did and whichever cards
      the cap dropped. */
  lemma CardLookupByRow(k: CardColumns, rows: seq<seq<string>>, sorted: seq<Card>, limit: int, n: int)
    requires SortedFrom(k, rows, sorted)
    requires n in CardsByRow(GetContacts(sorted, limit))
    ensures 2 <= n < |rows| + 2
    ensures CardsByRow(GetContacts(sorted, limit))[n] == ParseCard(k, rows[n - 2], n - 2)
  {
    var cards := GetContacts(sorted, limit);
    var entries := seq(|cards|, i requires 0 <= i < |cards| => (cards[i].rowIndex, cards[i]));
    GetFindsLastEntry(entries, n);
    var i :| 0 <= i < |entries| && entries[i].0 == n && CardsByRow(cards)[n] == entries[i].1;
    assert cards[i] in multiset(sorted) by {
      assert cards[i] in sorted;
    }
    assert cards[i] in ParseCards(k, rows);
  }

  // ----------------------------------------------------------- searchContacts

  predicate HasNameOrCompany(c: Card)
  {
    c.name != "" || c.company != ""
  }

  /** The test applied with the lower-cased search term. */
  predicate CardMatches(c: Card, term: string)
  {
    (c.name != "" && Includes(Lower(c.name), term))
    || (c.company != "" && Includes(Lower(c.company), term))
  }

  /** The single test equivalent to both passes of `searchContacts`. */
  predicate MatchesSearch(c: Card, query: string)
  {
    HasNameOrCompany(c) && (query == "" || CardMatches(c, Lower(query)))
  }

  /** `searchContacts(query)`: drops cards without name and company, then, for
      a non-empty query, keeps those whose name or company contains it. */
  method SearchContacts(sorted: seq<Card>, query: string) returns (data: seq<Card>)
    ensures data == Filter(GetContacts(sorted, DefaultLimit), c => MatchesSearch(c, query))
  {
    var contacts := GetContacts(sorted, DefaultLimit);
    ghost var all := contacts;
    contacts := Filter(contacts, HasNameOrCompany);
    if query != "" {
      var term := Lower(query);
      contacts := Filter(contacts, c => CardMatches(c, term));
      FilterFilter(all, HasNameOrCompany, c => CardMatches(c, term), c => MatchesSearch(c, query));
    } else {
      FilterSame(all, HasNameOrCompany, c => MatchesSearch(c, query));
    }
    data := contacts;
  }

  /** What the search keeps, in terms of substrings: a card with a name or a
      company, and, for a non-empty query, whose lower-cased name or company
      contains the lower-cased query. */
  lemma MatchesSearchMeaning(c: Card, query: string)
    ensures MatchesSearch(c, query)
            <==> HasNameOrCompany(c)
                 && (query == "" || IsInfix(Lower(query), Lower(c.name)) || IsInfix(Lower(query), Lower(c.company)))
  {
    IncludesIsInfix(Lower(c.name), Lower(query));
    IncludesIsInfix(Lower(c.company), Lower(query));
  }

  /** An empty query returns every card that has a name or a company. */
  lemma EmptyQueryKeepsNamed(sorted: seq<Card>)
    ensures Filter(GetContacts(sorted, DefaultLimit), c => MatchesSearch(c, ""))
            == Filter(GetContacts(sorted, DefaultLimit), HasNameOrCompany)
  {
    FilterSame(GetContacts(sorted, DefaultLimit), HasNameOrCompany, c => MatchesSearch(c, ""));
  }

  // ------------------------------------------------------- searchContactList

  /** A filed contact with its company name, as `searchContactList` lists it. */
  datatype NamedContact = NamedContact(contact: ListedContact, companyName: string)

  predicate NamedMatches(c: NamedContact, term: string)
  {
    (c.contact.name != "" && Includes(Lower(c.contact.name), term))
    || (c.companyName != "" && Includes(Lower(c.companyName), term))
  }

  /** The filed contacts with their company names (`{...contact, companyName}`). */
  function WithCompanyNames(contacts: seq<ListedContact>, companies: seq<Company>): (r: seq<NamedContact>)
    ensures |r| == |contacts|
    ensures forall i :: 0 <= i < |r| ==> r[i].contact == contacts[i]
    ensures forall i :: 0 <= i < |r| ==> r[i].companyName == CompanyNameOf(CompanyNames(companies), contacts[i].companyId)
  {
    seq(|contacts|, i requires 0 <= i < |contacts| =>
      NamedContact(contacts[i], CompanyNameOf(CompanyNames(companies), contacts[i].companyId)))
  }

  /** The listed contacts `searchContactList` pages through: all of them for an
      empty query, else those whose name or company name contains it. */
  function SearchContactListItems(contacts: seq<ListedContact>, companies: seq<Company>, query: string)
    : seq<NamedContact>
  {
    var named := WithCompanyNames(contacts, companies);
    if query == "" then named else Filter(named, c => NamedMatches(c, Lower(query)))
  }

  /** What `searchContactList` lists, in terms of substrings: each filed
      contact with its company name, kept exactly when the query is empty or
      its lower-cased name or company name contains the lower-cased query. */
  lemma SearchContactListMembers(contacts: seq<ListedContact>, companies: seq<Company>, query: string, i: int)
    requires 0 <= i < |contacts|
    ensures var x := NamedContact(contacts[i], CompanyNameOf(CompanyNames(companies), contacts[i].companyId));
            x in SearchContactListItems(contacts, companies, query)
            <==> query == "" || IsInfix(Lower(query), Lower(x.contact.name)) || IsInfix(Lower(query), Lower(x.companyName))
  {
    var x := NamedContact(contacts[i], CompanyNameOf(CompanyNames(companies), contacts[i].companyId));
    assert WithCompanyNames(contacts, companies)[i] == x;
    IncludesIsInfix(Lower(x.contact.name), Lower(query));
    IncludesIsInfix(Lower(x.companyName), Lower(query));
  }

  datatype Pagination = Pagination(current: int, total: int, totalItems: nat, hasNext: bool, hasPrev: bool)

  datatype Page<T> = Page(data: seq<T>, pagination: Pagination)

  /** `Math.ceil(n / d)` for a positive divisor. */
  function CeilDiv(n: nat, d: nat): (r: nat)
    requires 0 < d
    ensures n == 0 ==> r == 0
    ensures 0 < n ==> (r - 1) * d < n <= r * d
  {
    (n + d - 1) / d
  }

  /** Index of the first item of page `page`: `(page - 1) * pageSize`. */
  function PageStart(page: int, pageSize: int): int
  {
    (page - 1) * pageSize
  }

  lemma PageStartStep(page: int, pageSize: int)
    requires 1 <= page && 0 < pageSize
    ensures 0 <= PageStart(page, pageSize)
    ensures PageStart(page + 1, pageSize) == PageStart(page, pageSize) + pageSize
  {
  }

  /** The page `page` (1-based) of `items`, `pageSize` per page. */
  function Paginate<T>(items: seq<T>, page: int, pageSize: int): (p: Page<T>)
    requires 0 < pageSize
    ensures p.pagination.current == page && p.pagination.totalItems == |items|
    ensures p.pagination.hasPrev <==> page > 1
    ensures p.pagination.total == CeilDiv(|items|, pageSize)
  {
    var start := PageStart(page, pageSize);
    Page(Slice(items, start, start + pageSize),
         Pagination(page, CeilDiv(|items|, pageSize), |items|, start + pageSize < |items|, page > 1))
  }

  /** `searchContactList(query, page)`. */
  function SearchContactList(contacts: seq<ListedContact>, companies: seq<Company>, query: string,
                             page: int, pageSize: int): (p: Page<NamedContact>)
    requires 0 < pageSize
    ensures p.pagination.totalItems == |SearchContactListItems(contacts, companies, query)|
    ensures query == "" ==> p.pagination.totalItems == |contacts|
  {
    Paginate(SearchContactListItems(contacts, companies, query), page, pageSize)
  }

  /** Multiplying by a positive page size keeps the order. */
  lemma ScaleMonotone(a: int, b: int, d: int)
    requires a <= b && 0 < d
    ensures a * d <= b * d
  {
    assert b * d - a * d == (b - a) * d;
  }

  /** There is a next page exactly before the last page. */
  lemma HasNextBeforeLastPage<T>(items: seq<T>, page: int, pageSize: int)
    requires 0 < pageSize
    ensures Paginate(items, page, pageSize).pagination.hasNext
            <==> page < Paginate(items, page, pageSize).pagination.total
  {
    var total: int := CeilDiv(|items|, pageSize);
    assert PageStart(page, pageSize) + pageSize == page * pageSize;
    if page < total {
      ScaleMonotone(page, total - 1, pageSize);
    } else if 0 < |items| {
      ScaleMonotone(total, page, pageSize);
    } else {
      ScaleMonotone(0, page, pageSize);
    }
  }

  /** The `data` of page `page >= 1` is the slice of the items starting at
      `(page - 1) * pageSize`, at most `pageSize` long. */
  lemma PageData<T>(items: seq<T>, page: int, pageSize: int)
    requires 0 < pageSize && 1 <= page
    ensures var start := Min(PageStart(page, pageSize), |items|);
            Paginate(items, page, pageSize).data == items[start..Min(start + pageSize, |items|)]
    ensures |Paginate(items, page, pageSize).data| <= pageSize
  {
    PageStartStep(page, pageSize);
    SliceWindow(items, PageStart(page, pageSize), pageSize);
  }

  /** A window of `size` items from a non-negative `start`, clamped to the list. */
  lemma SliceWindow<T>(items: seq<T>, start: int, size: int)
    requires 0 <= start && 0 < size
    ensures var from := Min(start, |items|);
            Slice(items, start, start + size) == items[from..Min(from + size, |items|)]
    ensures |Slice(items, start, start + size)| <= size
  {
    SliceNonNegative(items, start, start + size);
  }

  /** Pages 1 to `k` one after the other. */
  function PagesUpTo<T>(items: seq<T>, pageSize: int, k: nat): seq<T>
    requires 0 < pageSize
  {
    if k == 0 then [] else PagesUpTo(items, pageSize, k - 1) + Paginate(items, k, pageSize).data
  }

  /** Pages 1 to `k` are the items before the start of page `k + 1`. */
  lemma {:induction false} PagesUpToPrefix<T>(items: seq<T>, pageSize: int, k: nat)
    requires 0 < pageSize
    ensures PagesUpTo(items, pageSize, k) == items[..Min(PageStart(k + 1, pageSize), |items|)]
  {
    if k > 0 {
      PagesUpToPrefix(items, pageSize, k - 1);
      PageData(items, k, pageSize);
      PageStartStep(k, pageSize);
      var a := Min(PageStart(k, pageSize), |items|);
      var b := Min(PageStart(k + 1, pageSize), |items|);
      assert items[..a] + items[a..b] == items[..b];
    }
  }

  /** The pages together list every item once, in order: pages `1..total`
      concatenate to the whole list. */
  lemma PagesCoverItems<T>(items: seq<T>, pageSize: int)
    requires 0 < pageSize
    ensures PagesUpTo(items, pageSize, Paginate(items, 1, pageSize).pagination.total) == items
  {
    var total := CeilDiv(|items|, pageSize);
    PagesUpToPrefix(items, pageSize, total);
    assert |items| <= PageStart(total + 1, pageSize);
  }
}
