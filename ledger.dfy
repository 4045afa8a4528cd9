/** The server's in-memory database: the contact-message log and the
    page-view analytics, updated in place by the write handlers and read by
    the listing and health handlers. */
module Server {
  import opened Wrappers
  import opened EmailFormat
  import opened Ticket
  import opened Validation
  import opened PageViews

  const StatusNew: string := "new"

  /** One stored contact-form submission. */
  datatype ContactMessage = ContactMessage(
    id: nat,
    name: string,
    email: string,
    subject: string,
    message: string,
    timestamp: string,
    status: string,
    ticketNumber: string)

  /** The "data" member of a 201 answer to a contact submission. */
  datatype ContactReceipt = ContactReceipt(ticketNumber: string, submittedAt: string)

  /** The "data" member of the answer to an accepted page view. */
  datatype PageViewReceipt = PageViewReceipt(page: string, views: nat, totalVisitors: nat)

  /** `messages.filter(m => m.status === st).length`. */
  function CountStatus(ms: seq<ContactMessage>, st: string): (n: nat)
    ensures n <= |ms|
  {
    if ms == [] then 0 else CountStatus(ms[..|ms| - 1], st) + (if ms[|ms| - 1].status == st then 1 else 0)
  }

  /** Every record has status st exactly when the count of status st is the
      whole length. */
  lemma {:induction false} CountStatusAll(ms: seq<ContactMessage>, st: string)
    ensures CountStatus(ms, st) == |ms| <==> AllStatus(ms, st)
  {
    if ms != [] {
      var p := ms[..|ms| - 1];
      CountStatusAll(p, st);
      assert forall i :: 0 <= i < |p| ==> p[i] == ms[i];
    }
  }

  /** The record a successful submission stores: the caller's fields, the
      defaulted subject, status "new", the id from the first clock read and
      the ticket from the second. */
  function NewRecord(name: string, email: string, subject: Option<string>, message: string,
                     idClock: nat, isoTime: string, ticketClock: nat): (m: ContactMessage)
    ensures m.status == StatusNew
    ensures m.subject != "" && (Present(subject) ==> m.subject == subject.value)
    ensures !Present(subject) ==> m.subject == DefaultSubject
    ensures |m.ticketNumber| == 12 <==> ticketClock >= 10000000
  {
    TicketLength(ticketClock);
    ContactMessage(idClock, name, email, SubjectOrDefault(subject), message, isoTime, StatusNew,
                   TicketNumber(ticketClock))
  }

  /** Every record in the log has status st. */
  predicate AllStatus(ms: seq<ContactMessage>, st: string) {
    forall i :: 0 <= i < |ms| ==> ms[i].status == st
  }

  /** Appending a record of status st keeps every record of status st. */
  lemma AppendNew(ms: seq<ContactMessage>, m: ContactMessage)
    requires AllStatus(ms, m.status)
    ensures AllStatus(ms + [m], m.status)
  {
  }

  class Ledger {
    var messages: seq<ContactMessage>
    var pageViews: map<string, nat>
    var totalVisitors: nat

    /** The tally is the sum of the per-page counts, every page key was
        created by a view, and every stored message is still "new". */
    ghost predicate Valid()
      reads this
    {
      && totalVisitors == Sum(pageViews)
      && AllVisited(pageViews)
      && AllStatus(messages, StatusNew)
    }

    /** The database as it is at process start. */
    constructor ()
      ensures Valid()
      ensures messages == [] && pageViews == map[] && totalVisitors == 0
    {
      messages := [];
      pageViews := map[];
      totalVisitors := 0;
    }

    /** POST /api/contact. The clock is read three times: idClock for the id,
        isoTime for the timestamp string and ticketClock for the ticket. */
    method SubmitContact(name: Option<string>, email: Option<string>, subject: Option<string>,
                         message: Option<string>, idClock: nat, isoTime: string, ticketClock: nat)
      returns (r: Result<ContactReceipt, ApiError>)
      requires Valid()
      modifies this`messages
      ensures Valid()
      ensures ValidateContact(name, email, message).Some? ==>
        r == Err(ValidateContact(name, email, message).value) && messages == old(messages)
      ensures ValidateContact(name, email, message).None? ==>
        var record := NewRecord(name.value, email.value, subject, message.value, idClock, isoTime, ticketClock);
        && r == Ok(ContactReceipt(record.ticketNumber, record.timestamp))
        && messages == old(messages) + [record]
    {
      var verdict := CheckContact(name, email, message);
      if verdict.Some? {
        return Err(verdict.value);
      }
      var record := NewRecord(name.value, email.value, subject, message.value, idClock, isoTime, ticketClock);
      AppendNew(messages, record);
      messages := messages + [record];
      r := Ok(ContactReceipt(record.ticketNumber, record.timestamp));
    }

    /** POST /api/analytics/pageview. */
    method RecordPageView(page: Option<string>) returns (r: Result<PageViewReceipt, ApiError>)
      requires Valid()
      modifies this`pageViews, this`totalVisitors
      ensures Valid()
      ensures ValidatePageView(page).Some? ==>
        r == Err(ValidatePageView(page).value) && pageViews == old(pageViews) && totalVisitors == old(totalVisitors)
      ensures ValidatePageView(page).None? ==>
        && pageViews == Bump(old(pageViews), page.value)
        && totalVisitors == old(totalVisitors) + 1
        && r == Ok(PageViewReceipt(page.value, Views(old(pageViews), page.value) + 1, totalVisitors))
    {
      var verdict := ValidatePageView(page);
      if verdict.Some? {
        return Err(verdict.value);
      }
      var p := page.value;
      SumBump(pageViews, p);
      pageViews := Bump(pageViews, p);
      totalVisitors := totalVisitors + 1;
      r := Ok(PageViewReceipt(p, pageViews[p], totalVisitors));
    }

    /** GET /api/messages: the total, the number of "new" records, and the
        log itself in submission order. */
    method ListMessages() returns (total: nat, newCount: nat, all: seq<ContactMessage>)
      requires Valid()
      ensures total == |messages| && all == messages
      ensures newCount == CountStatus(messages, StatusNew)
      ensures newCount == total
    {
      total := |messages|;
      CountStatusAll(messages, StatusNew);
      newCount := CountStatus(messages, StatusNew);
      all := messages;
    }

    /** The "database" member of GET /api/health: the number of messages and
        the number of distinct page keys. */
    method Health() returns (messageCount: nat, analytics: nat)
      requires Valid()
      ensures messageCount == |messages|
      ensures analytics == |pageViews.Keys|
      ensures analytics <= totalVisitors
    {
      KeysAtMostSum(pageViews);
      messageCount := |messages|;
      analytics := |pageViews.Keys|;
    }
  }
}
