/** The ledger checked against its inputs: which payments are accepted, and what each account holds, told from the
    requests alone. */
module Audit {
  import opened Types
  import opened Books
  import opened LedgerRuns

  /** A payment as a client asks for it. */
  datatype Entry = Entry(source: Key, destination: Key, amount: real)

  function EntryOf(tx: Transaction): Entry {
    Entry(tx.source, tx.destination, tx.amount)
  }

  function Entries(log: seq<Transaction>): (r: seq<Entry>)
    ensures |r| == |log| && forall i :: 0 <= i < |r| ==> r[i] == EntryOf(log[i])
  {
    seq(|log|, i requires 0 <= i < |log| => EntryOf(log[i]))
  }

  /** What an account holds after a payment. The destination's balance is written last, so a payment to oneself
      only adds. */
  function Effect(balance: real, e: Entry, a: Key): real {
    if a == e.destination then (if balance + e.amount >= 0.0 then balance + e.amount else balance)
    else if a == e.source then balance - e.amount
    else balance
  }

  /** What an account holds after these payments, oldest first. */
  function Balance(entries: seq<Entry>, a: Key): real {
    if entries == [] then 1000.0
    else Effect(Balance(entries[..|entries| - 1], a), entries[|entries| - 1], a)
  }

  /** The payments accepted once one more request has been served: a payment is, if its source holds the amount. */
  function Next(entries: seq<Entry>, e: Event): seq<Entry> {
    if e.Payment? && e.amount <= Balance(entries, e.source) then entries + [Entry(e.source, e.destination, e.amount)]
    else entries
  }

  /** The payments accepted among these requests. */
  function Granted(events: seq<Event>): seq<Entry> {
    if events == [] then []
    else Next(Granted(events[..|events| - 1]), events[|events| - 1])
  }

  /** The accounts opened by these requests. */
  function Addresses(events: seq<Event>): set<Key> {
    set i | 0 <= i < |events| && events[i].Opening? :: events[i].address
  }

  /** The books agree with these payments. */
  ghost predicate Agrees(b: Books, entries: seq<Entry>) {
    && Entries(b.log) == entries
    && forall a {:trigger b.accounts[a]} :: a in b.accounts ==> b.accounts[a].balance == Balance(entries, a)
  }

  lemma {:induction false} NotNamed(entries: seq<Entry>, a: Key)
    requires forall i :: 0 <= i < |entries| ==> entries[i].source != a && entries[i].destination != a
    ensures Balance(entries, a) == 1000.0
  {
    if entries != [] { NotNamed(entries[..|entries| - 1], a); }
  }

  lemma OneMoreEntry(entries: seq<Entry>, e: Entry, a: Key)
    ensures Balance(entries + [e], a) == Effect(Balance(entries, a), e, a)
  {
    assert (entries + [e])[..|entries|] == entries;
  }

  lemma OpeningAgrees(digest: TxDigest, b: Books, address: Key, entries: seq<Entry>)
    requires Inv(digest, b) && address !in b.accounts && Agrees(b, entries)
    ensures Agrees(Create(b, address), entries)
  {
    CreateOpens(b, address);
    forall i | 0 <= i < |entries| ensures entries[i].source != address && entries[i].destination != address {
      assert PaymentOk(digest, b, i);
      assert entries[i] == EntryOf(b.log[i]);
    }
    NotNamed(entries, address);
  }

  lemma PaymentAgrees(digest: TxDigest, b: Books, sequence: nat, e: Entry, entries: seq<Entry>, c: Books)
    requires Inv(digest, b) && e.source in b.accounts && e.destination in b.accounts && Agrees(b, entries)
    requires c == Pay(b, digest, sequence, e.source, e.destination, e.amount)
    ensures Agrees(c, if e.amount <= Balance(entries, e.source) then entries + [e] else entries)
  {
    PayIsPaid(digest, b, sequence, e.source, e.destination, e.amount, c);
    assert b.accounts[e.source].balance == Balance(entries, e.source);
    if e.amount <= Balance(entries, e.source) {
      LogGrows(b.log, c.log, e, entries);
      forall a | a in c.accounts ensures c.accounts[a].balance == Balance(entries + [e], a) {
        OneMoreEntry(entries, e, a);
        assert b.accounts[a].balance == Balance(entries, a);
      }
    }
  }

  lemma LogGrows(log: seq<Transaction>, log': seq<Transaction>, e: Entry, entries: seq<Entry>)
    requires |log'| == |log| + 1 && log'[..|log|] == log && EntryOf(log'[|log|]) == e && Entries(log) == entries
    ensures Entries(log') == entries + [e]
  {
    forall i | 0 <= i < |log| ensures Entries(log')[i] == entries[i] {
      assert log'[..|log|][i] == log'[i];
    }
  }

  lemma StepAgrees(digest: TxDigest, b: Books, e: Event, c: Books, entries: seq<Entry>)
    requires Inv(digest, b) && Legal(digest, b, e) && c == Step(digest, b, e) && Agrees(b, entries)
    ensures Agrees(c, Next(entries, e))
    ensures c.accounts.Keys == b.accounts.Keys + if e.Opening? then {e.address} else {}
  {
    match e
    case Opening(address) =>
      OpeningAgrees(digest, b, address, entries);
      CreateOpens(b, address);
    case Payment(s, d, amount, sequence) =>
      PaymentAgrees(digest, b, sequence, Entry(s, d, amount), entries, c);
      PayIsPaid(digest, b, sequence, s, d, amount, c);
  }

  /** In every reachable state: the log is the payments granted, in order; each account holds what these payments
      leave it, whatever the amounts; and the accounts are those opened. */
  lemma {:induction false} RequestsTell(digest: TxDigest, events: seq<Event>, b: Books)
    requires Reaches(digest, events, b)
    ensures Agrees(b, Granted(events)) && b.accounts.Keys == Addresses(events)
    decreases |events|
  {
    if events == [] {
      assert Entries(b.log) == [];
    } else {
      var n := |events| - 1;
      var e := events[n];
      var a :| Reaches(digest, events[..n], a) && Legal(digest, a, e) && b == Step(digest, a, e);
      RequestsTell(digest, events[..n], a);
      ReachableInv(digest, events[..n], a);
      StepAgrees(digest, a, e, b, Granted(events[..n]));
      OneMoreAddress(events);
    }
  }

  lemma OneMoreAddress(events: seq<Event>)
    requires events != []
    ensures var n := |events| - 1;
      Addresses(events) == Addresses(events[..n]) + if events[n].Opening? then {events[n].address} else {}
  {
    var n := |events| - 1;
    forall a | a in Addresses(events[..n]) ensures a in Addresses(events) {
      var i :| 0 <= i < n && events[..n][i].Opening? && events[..n][i].address == a;
      assert events[i].Opening? && events[i].address == a;
    }
    forall a | a in Addresses(events) && !(events[n].Opening? && events[n].address == a)
      ensures a in Addresses(events[..n])
    {
      var i :| 0 <= i < |events| && events[i].Opening? && events[i].address == a;
      assert events[..n][i] == events[i];
    }
  }

  // ---- histories ----

  /** What an account holds, told from its own history, newest first. */
  function FromHistory(history: seq<Transaction>, a: Key): real {
    if history == [] then 1000.0 else Effect(FromHistory(history[1..], a), EntryOf(history[0]), a)
  }

  lemma OneMoreInHistory(tx: Transaction, history: seq<Transaction>, a: Key)
    ensures FromHistory((if Names(tx, a) then [tx] else []) + history, a) ==
            Effect(FromHistory(history, a), EntryOf(tx), a)
  {
    if Names(tx, a) {
      assert ([tx] + history)[1..] == history;
    } else {
      assert [] + history == history;
    }
  }

  lemma {:induction false} HistorySuffices(log: seq<Transaction>, a: Key, n: nat)
    requires n <= |log|
    ensures FromHistory(NewestFirst(log, a, n), a) == Balance(Entries(log)[..n], a)
  {
    if n > 0 {
      HistorySuffices(log, a, n - 1);
      var before, e := Entries(log)[..n - 1], EntryOf(log[n - 1]);
      assert Entries(log)[..n] == before + [e];
      OneMoreEntry(before, e, a);
      OneMoreInHistory(log[n - 1], NewestFirst(log, a, n - 1), a);
    }
  }

  /** In every reachable state an account holds what its history adds up to. */
  lemma HistoryTellsBalance(digest: TxDigest, events: seq<Event>, b: Books, a: Key)
    requires Reaches(digest, events, b) && a in b.accounts
    ensures b.accounts[a].balance == FromHistory(NewestFirst(b.log, a, |b.log|), a)
  {
    RequestsTell(digest, events, b);
    HistorySuffices(b.log, a, |b.log|);
    assert Entries(b.log)[..|b.log|] == Entries(b.log);
  }

  // ---- sums ----

  function Sent(entries: seq<Entry>, a: Key): real {
    if entries == [] then 0.0
    else
      var last := entries[|entries| - 1];
      Sent(entries[..|entries| - 1], a) + if last.source == a then last.amount else 0.0
  }

  function Got(entries: seq<Entry>, a: Key): real {
    if entries == [] then 0.0
    else
      var last := entries[|entries| - 1];
      Got(entries[..|entries| - 1], a) + if last.destination == a then last.amount else 0.0
  }

  /** With non-negative payments between different accounts, an account holds 1000, and what it got, less what it
      sent, and never less than nothing. */
  lemma {:induction false} BalanceIsDifference(events: seq<Event>, a: Key)
    requires forall i :: 0 <= i < |events| ==> Ordinary(events[i])
    ensures var g := Granted(events); Balance(g, a) == 1000.0 + Got(g, a) - Sent(g, a) && Balance(g, a) >= 0.0
    decreases |events|
  {
    if events != [] {
      var n := |events| - 1;
      var before, e := Granted(events[..n]), events[n];
      BalanceIsDifference(events[..n], a);
      if e.Payment? && e.amount <= Balance(before, e.source) {
        var entry := Entry(e.source, e.destination, e.amount);
        assert Granted(events) == before + [entry];
        assert Ordinary(e);
        OneMoreEntry(before, entry, a);
        assert (before + [entry])[..|before|] == before;
      }
    }
  }
}
