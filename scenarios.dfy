/** Concrete inputs against the model: sample addresses for the email
    regex, and request sequences against one fresh database. */
module Scenarios {
  import opened Wrappers
  import opened EmailFormat
  import opened Validation
  import opened Ticket
  import opened Server

  /** Addresses the regex accepts. */
  lemma AcceptedAddresses()
    ensures EmailPattern("a@b.co")
    ensures EmailPattern("a@b.c.")
  {
    var s := "a@b.co";
    assert IsRun(s[..1]) && IsRun(s[1 + 1..3]) && IsRun(s[3 + 1..]) by {
      assert s[..1] == "a" && s[1 + 1..3] == "b" && s[3 + 1..] == "co";
    }
    assert s[1] == '@' && s[3] == '.';
    var t := "a@b.c.";
    assert IsRun(t[..1]) && IsRun(t[1 + 1..3]) && IsRun(t[3 + 1..]) by {
      assert t[..1] == "a" && t[1 + 1..3] == "b" && t[3 + 1..] == "c.";
    }
    assert t[1] == '@' && t[3] == '.';
  }

  /** A complete submission with the address "a@b.co" passes validation. */
  lemma AcceptedSubmission()
    ensures ValidateContact(Some("Ann"), Some("a@b.co"), Some("Hi")) == None
  {
    AcceptedAddresses();
  }

  /** Addresses the regex rejects: no '@' at all, and an '@' directly
      followed by the only '.'. */
  lemma RejectedAddresses()
    ensures !EmailPattern("not-an-email")
    ensures !EmailPattern("a@.co")
  {
  }

  /** Addresses the regex rejects because of their shape: whitespace in the
      local part, and two '@'. */
  lemma RejectedShapes()
    ensures !EmailPattern("a b@c.d")
    ensures !EmailPattern("a@b@c.d")
  {
    assert !NoWhitespace("a b@c.d") by {
      assert IsWs("a b@c.d"[1]);
    }
    if EmailPattern("a b@c.d") {
      PatternShape("a b@c.d", 3, 3);
    }
    if EmailPattern("a@b@c.d") {
      PatternShape("a@b@c.d", 1, 3);
    }
  }

  /** Three views of "home" answer 1, 2, 3, and each raises the tally by one. */
  method HomeThreeTimes() {
    var db := new Ledger();
    var r1 := db.RecordPageView(Some("home"));
    assert r1 == Ok(PageViewReceipt("home", 1, 1));
    var r2 := db.RecordPageView(Some("home"));
    assert r2 == Ok(PageViewReceipt("home", 2, 2));
    var r3 := db.RecordPageView(Some("home"));
    assert r3 == Ok(PageViewReceipt("home", 3, 3));
    var e := db.RecordPageView(Some(""));
    assert e == Err(PageNameRequired) && db.totalVisitors == 3;
  }

  /** Health counts start at zero and become one each after one accepted
      contact submission and one view of one page; the listing then shows
      one new message. */
  method HealthAfterActivity(idClock: nat, isoTime: string, ticketClock: nat) {
    var db := new Ledger();
    var m0, a0 := db.Health();
    assert m0 == 0 && a0 == 0;
    var v := db.RecordPageView(Some("home"));
    assert db.pageViews.Keys == {"home"};
    AcceptedSubmission();
    var c := db.SubmitContact(Some("Ann"), Some("a@b.co"), None, Some("Hi"), idClock, isoTime, ticketClock);
    assert c.Ok? && |db.messages| == 1 && db.messages[0].subject == DefaultSubject;
    var m1, a1 := db.Health();
    assert m1 == 1 && a1 == 1;
    var total, newCount, all := db.ListMessages();
    assert total == 1 && newCount == 1;
  }

  /** A submission missing its message is refused for the missing field even
      though its email is malformed too, and the log is unchanged. */
  method MissingFieldsFirst(idClock: nat, isoTime: string, ticketClock: nat) {
    var db := new Ledger();
    var bad := db.SubmitContact(Some("Ann"), Some("not-an-email"), None, Some(""), idClock, isoTime, ticketClock);
    assert bad == Err(MissingRequiredFields) && db.messages == [];
    RejectedAddresses();
    var worse := db.SubmitContact(Some("Ann"), Some("not-an-email"), None, Some("Hi"), idClock, isoTime, ticketClock);
    assert worse == Err(InvalidEmailFormat) && db.messages == [];
  }
}
