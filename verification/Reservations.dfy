/** The locker server's reservations: a linked list searched, appended to and unlinked in place. */
module Reservations {
  import opened Wrappers

  datatype Entry = Entry(user: string, startTime: string, endTime: string, durationHours: int)

  // ----- atoi -------------------------------------------------------------------------------

  predicate IsSpace(c: char) {
    c == ' ' || c == '\t' || c == '\n' || c == '\r' || c as int == 11 || c as int == 12
  }

  function DigitsValue(s: string, acc: nat): nat {
    if s == [] || !('0' <= s[0] <= '9') then acc
    else DigitsValue(s[1..], acc * 10 + (s[0] as int - '0' as int))
  }

  /** Leading blanks, an optional sign, then digits up to the first other character. */
  function Atoi(s: string): int {
    if s == [] then 0
    else if IsSpace(s[0]) then Atoi(s[1..])
    else if s[0] == '-' then 0 - (DigitsValue(s[1..], 0) as int)
    else if s[0] == '+' then DigitsValue(s[1..], 0)
    else DigitsValue(s, 0)
  }

  predicate Digits(s: string) {
    forall i | 0 <= i < |s| :: '0' <= s[i] <= '9'
  }

  /** The number a string of digits stands for, leading zeros and all. */
  function Value(digits: string): nat
    requires Digits(digits)
  {
    if digits == [] then 0
    else 10 * Value(digits[..|digits| - 1]) + (digits[|digits| - 1] as int - '0' as int)
  }

  /** The decimal digits of a number. */
  function Decimal(n: nat): (s: string)
    ensures s != [] && Digits(s)
  {
    if n < 10 then [('0' as int + n) as char] else Decimal(n / 10) + [('0' as int + n % 10) as char]
  }

  lemma {:induction false} DecimalValue(n: nat)
    ensures Value(Decimal(n)) == n
  {
    if n >= 10 {
      DecimalValue(n / 10);
      assert Decimal(n)[..|Decimal(n)| - 1] == Decimal(n / 10);
    }
  }

  lemma {:induction false} DigitsSplit(first: string, second: string, acc: nat)
    requires Digits(first)
    ensures DigitsValue(first + second, acc) == DigitsValue(second, DigitsValue(first, acc))
  {
    if first == [] {
      assert first + second == second;
    } else {
      assert (first + second)[1..] == first[1..] + second;
      DigitsSplit(first[1..], second, acc * 10 + (first[0] as int - '0' as int));
    }
  }

  lemma {:induction false} DigitsAreRead(digits: string)
    requires Digits(digits)
    ensures DigitsValue(digits, 0) == Value(digits)
  {
    if digits != [] {
      var n := |digits| - 1;
      DigitsAreRead(digits[..n]);
      DigitsSplit(digits[..n], [digits[n]], 0);
      assert digits == digits[..n] + [digits[n]];
      assert DigitsValue([digits[n]], Value(digits[..n])) == Value(digits);
    }
  }

  predicate BlankChar(c: char) {
    c in [' ', '\t', '\n', '\r', 11 as char, 12 as char]
  }

  predicate Blank(s: string) {
    forall i | 0 <= i < |s| :: BlankChar(s[i])
  }

  lemma {:induction false} BlanksAreSkipped(blanks: string, s: string)
    requires Blank(blanks)
    ensures Atoi(blanks + s) == Atoi(s)
  {
    if blanks == [] {
      assert blanks + s == s;
    } else {
      assert (blanks + s)[1..] == blanks[1..] + s;
      BlanksAreSkipped(blanks[1..], s);
    }
  }

  /** Where the digits end. */
  predicate NoDigitNext(rest: string) {
    rest == [] || !('0' <= rest[0] <= '9')
  }

  function WithSign(sign: string, n: int): int {
    if sign == "-" then -n else n
  }

  /** A number with or without a sign, leading zeros, and whatever comes after it, is read as what its digits stand for. */
  lemma SignedIsRead(sign: string, digits: string, rest: string)
    requires sign in ["", "+", "-"] && Digits(digits) && digits != [] && NoDigitNext(rest)
    ensures Atoi(sign + (digits + rest)) == WithSign(sign, Value(digits))
  {
    DigitsSplit(digits, rest, 0);
    DigitsAreRead(digits);
    var tail := digits + rest;
    if sign == "" {
      assert sign + tail == tail;
    } else {
      assert (sign + tail)[1..] == tail;
    }
  }

  lemma NumberIsRead(blanks: string, sign: string, digits: string, rest: string)
    requires Blank(blanks) && sign in ["", "+", "-"] && Digits(digits) && digits != [] && NoDigitNext(rest)
    ensures Atoi(blanks + (sign + (digits + rest))) == WithSign(sign, Value(digits))
  {
    BlanksAreSkipped(blanks, sign + (digits + rest));
    SignedIsRead(sign, digits, rest);
  }

  /** Reading what writing a number in decimal gives, behind blanks and a sign, gives the number back. */
  lemma DecimalIsRead(n: nat, blanks: string, sign: string, rest: string)
    requires Blank(blanks) && sign in ["", "+", "-"] && NoDigitNext(rest)
    ensures Atoi(blanks + (sign + (Decimal(n) + rest))) == WithSign(sign, n)
  {
    NumberIsRead(blanks, sign, Decimal(n), rest);
    DecimalValue(n);
  }

  /** Without a digit where one should be, 0 is read. */
  lemma NothingIsRead(blanks: string, sign: string, rest: string)
    requires Blank(blanks) && sign in ["", "+", "-"] && NoDigitNext(rest)
    requires sign == "" && rest != [] ==> !BlankChar(rest[0]) && rest[0] != '+' && rest[0] != '-'
    ensures Atoi(blanks + (sign + rest)) == 0
  {
    BlanksAreSkipped(blanks, sign + rest);
    if sign == "" {
      assert sign + rest == rest;
    } else {
      assert (sign + rest)[1..] == rest;
    }
  }

  // ----- The list as a value ------------------------------------------------------------------

  /** `None` before the first creation; afterwards a list, possibly emptied by deletions. */
  type Book = Option<seq<Entry>>

  /** Position of the first entry of a user, or the length if there is none. */
  function FirstOf(entries: seq<Entry>, user: string): (i: nat)
    ensures i <= |entries|
    ensures i < |entries| ==> entries[i].user == user
    ensures forall j | 0 <= j < i :: entries[j].user != user
  {
    if entries == [] then 0
    else if entries[0].user == user then 0
    else 1 + FirstOf(entries[1..], user)
  }

  predicate Has(entries: seq<Entry>, user: string) {
    FirstOf(entries, user) < |entries|
  }

  /** The first reservation ever takes both its times from field 3. */
  function CreateOp(book: Book, fields: seq<string>): Book
    requires |fields| >= 8
  {
    match book
    case None => Some([Entry(fields[1], fields[3], fields[3], Atoi(fields[7]))])
    case Some(entries) =>
      if Has(entries, fields[0]) then book
      else Some(entries + [Entry(fields[1], fields[2], fields[3], Atoi(fields[7]))])
  }

  function Without(entries: seq<Entry>, i: nat): seq<Entry>
    requires i < |entries|
  {
    entries[..i] + entries[i + 1..]
  }

  function DeleteOp(book: Book, user: string): Book {
    if book.Some? && Has(book.value, user) then Some(Without(book.value, FirstOf(book.value, user))) else book
  }

  // ----- The list in place ----------------------------------------------------------------------

  class Reservation {
    var user: string
    var startTime: string
    var endTime: string
    var durationHours: int
    var next: Reservation?

    ghost function Value(): Entry
      reads this
    {
      Entry(user, startTime, endTime, durationHours)
    }

    constructor (user: string, startTime: string, endTime: string, durationHours: int)
      ensures Value() == Entry(user, startTime, endTime, durationHours) && next == null
    {
      this.user, this.startTime, this.endTime, this.durationHours := user, startTime, endTime, durationHours;
      next := null;
    }
  }

  class ReservationList {
    var head: Reservation?
    ghost var nodes: seq<Reservation>
    ghost var Repr: set<object>

    /** The nodes are all different, and linked from the head to a null end. */
    ghost predicate Valid()
      reads this, Repr
      ensures Valid() ==> this in Repr
    {
      && this in Repr && (forall i | 0 <= i < |nodes| :: nodes[i] in Repr)
      && (forall i, j | 0 <= i < j < |nodes| :: nodes[i] != nodes[j])
      && head == (if nodes == [] then null else nodes[0])
      && (forall i {:trigger nodes[i].next} | 0 <= i < |nodes| - 1 :: nodes[i].next == nodes[i + 1])
      && (nodes != [] ==> nodes[|nodes| - 1].next == null)
    }

    ghost function Entries(): seq<Entry>
      reads this, nodes
    {
      seq(|nodes|, i requires 0 <= i < |nodes| reads this, nodes => nodes[i].Value())
    }

    constructor (first: Reservation)
      requires first.next == null
      ensures Valid() && nodes == [first] && Repr == {this, first}
    {
      head, nodes, Repr := first, [first], {this, first};
    }

    method Search(user: string) returns (element: Reservation?)
      requires Valid()
      ensures element == var i := FirstOf(Entries(), user); if i < |nodes| then nodes[i] else null
    {
      element := head;
      ghost var index := 0;
      while element != null
        invariant index <= |nodes| && element == if index < |nodes| then nodes[index] else null
        invariant forall j | 0 <= j < index :: Entries()[j].user != user
        decreases |nodes| - index
      {
        if element.user == user {
          FirstIs(Entries(), user, index);
          return;
        }
        element, index := element.next, index + 1;
      }
      FirstIs(Entries(), user, index);
    }

    /** Walk to the last node and hang the new one there; there must be a node to walk from. */
    method Append(node: Reservation)
      requires Valid() && nodes != [] && node !in nodes && node.next == null
      modifies Repr
      ensures Valid() && Repr == old(Repr) + {node} && nodes == old(nodes) + [node]
      ensures Entries() == old(Entries()) + [old(node.Value())]
    {
      var cursor := head;
      ghost var i := 0;
      while cursor.next != null
        invariant i < |nodes| && cursor == nodes[i]
        decreases |nodes| - i
      {
        assert nodes[i].next == cursor.next;
        cursor, i := cursor.next, i + 1;
      }
      assert i == |nodes| - 1 by {
        assert nodes[i].next == null;
      }
      cursor.next := node;
      nodes, Repr := nodes + [node], Repr + {node};
    }

    /** Take the node at position i out of the list, by relinking its predecessor or the head. */
    method Unlink(prev: Reservation?, curr: Reservation, ghost i: nat)
      requires Valid() && i < |nodes| && curr == nodes[i]
      requires prev == if i > 0 then nodes[i - 1] else null
      modifies Repr
      ensures Valid() && Repr == old(Repr)
      ensures nodes == old(nodes)[..i] + old(nodes)[i + 1..]
      ensures Entries() == Without(old(Entries()), i) && curr.Value() == old(curr.Value())
    {
      assert i < |nodes| - 1 ==> nodes[i].next == nodes[i + 1];
      ghost var before := nodes;
      if prev != null {
        prev.next := curr.next;
      } else {
        head := curr.next;
      }
      nodes := nodes[..i] + nodes[i + 1..];
      forall j | 0 <= j < |nodes| - 1
        ensures nodes[j].next == nodes[j + 1]
      {
        if j + 1 < i {
          assert before[j].next == before[j + 1];
        } else if j >= i {
          assert before[j + 1].next == before[j + 2];
        }
      }
    }

    /** Unlink the first node of a user; it is returned, still pointing into the list. */
    method Remove(user: string) returns (removed: Reservation)
      requires Valid() && Has(Entries(), user)
      modifies Repr
      ensures Valid() && Repr == old(Repr) && removed !in nodes
      ensures var i := FirstOf(old(Entries()), user);
              && removed == old(nodes)[i]
              && nodes == old(nodes)[..i] + old(nodes)[i + 1..]
              && Entries() == Without(old(Entries()), i) && removed.Value() == old(Entries())[i]
    {
      ghost var target := FirstOf(Entries(), user);
      var prev: Reservation? := null;
      var curr := head;
      ghost var i := 0;
      if curr.user == user {
        FirstIs(Entries(), user, 0);
        Unlink(null, curr, 0);
        return curr;
      }
      while curr.user != user
        invariant i <= target < |nodes| && curr == nodes[i]
        invariant prev == if i > 0 then nodes[i - 1] else null
        invariant forall j | 0 <= j < i :: Entries()[j].user != user
        decreases target - i
      {
        assert Entries()[i].user == curr.user;
        assert nodes[i].next == nodes[i + 1];
        prev := curr;
        curr := curr.next;
        i := i + 1;
      }
      FirstIs(Entries(), user, i);
      Unlink(prev, curr, i);
      return curr;
    }
  }

  lemma FirstIs(entries: seq<Entry>, user: string, i: nat)
    requires i <= |entries| && (i < |entries| ==> entries[i].user == user)
    requires forall j | 0 <= j < i :: entries[j].user != user
    ensures FirstOf(entries, user) == i
  {
  }

  class LockerServer {
    var reservations: ReservationList?

    ghost function Repr(): set<object>
      reads this, reservations
    {
      if reservations == null then {this} else {this} + reservations.Repr
    }

    ghost predicate Valid()
      reads this, reservations, Repr()
    {
      reservations != null ==> reservations.Valid() && this !in reservations.Repr
    }

    ghost function Value(): Book
      requires Valid()
      reads this, reservations, Repr()
    {
      if reservations == null then None else Some(reservations.Entries())
    }

    constructor ()
      ensures Valid() && Value() == None && Repr() == {this}
    {
      reservations := null;
    }

    /** An existing list must not be empty: its last node is looked for from the head without a null check. */
    method CreateReservation(fields: seq<string>) returns (created: Reservation?)
      requires Valid() && |fields| >= 8 && Value() != Some([])
      modifies Repr()
      ensures Valid() && fresh(Repr() - old(Repr()))
      ensures Value() == CreateOp(old(Value()), fields)
      ensures created != null <==> old(Value()).Some? && !Has(old(Value()).value, fields[0])
      ensures created != null ==>
                reservations != null && reservations.nodes != [] && created == reservations.nodes[|reservations.nodes| - 1]
    {
      if reservations == null {
        var first := new Reservation(fields[1], fields[3], fields[3], Atoi(fields[7]));
        reservations := new ReservationList(first);
        assert reservations.Entries() == [first.Value()];
        return null;
      }
      var found := reservations.Search(fields[0]);
      if found == null {
        var newReservation := new Reservation(fields[1], fields[2], fields[3], Atoi(fields[7]));
        reservations.Append(newReservation);
        return newReservation;
      }
      return null;
    }

    method DeleteReservation(user: string) returns (removed: Reservation?)
      requires Valid()
      modifies Repr()
      ensures Valid() && Repr() == old(Repr())
      ensures Value() == DeleteOp(old(Value()), user)
      ensures removed != null <==> old(Value()).Some? && Has(old(Value()).value, user)
      ensures removed != null ==>
                && reservations != null && removed !in reservations.nodes
                && removed.Value() == old(Value()).value[FirstOf(old(Value()).value, user)]
    {
      if reservations != null {
        var found := reservations.Search(user);
        if found != null {
          removed := reservations.Remove(user);
          return;
        }
      }
      return null;
    }

    /** The server's main loop: one command after another. */
    method Serve(commands: seq<seq<string>>)
      requires Valid() && Servable(Value(), commands)
      modifies Repr()
      ensures Valid() && fresh(Repr() - old(Repr()))
      ensures Value() == Fold(old(Value()), commands)
    {
      ghost var book := Value();
      for k := 0 to |commands|
        invariant Valid() && fresh(Repr() - old(Repr()))
        invariant Value() == Fold(book, commands[..k])
      {
        var command := commands[k];
        assert commands[..k + 1][..k] == commands[..k];
        if command[0] == "CREATE" {
          var _ := CreateReservation(command);
        } else if command[0] == "DELETE" {
          var _ := DeleteReservation(command[1]);
        }
      }
      assert commands[..|commands|] == commands;
    }
  }

  // ----- Whole runs ------------------------------------------------------------------------------

  function Apply(book: Book, command: seq<string>): Book
    requires |command| >= 8
  {
    if command[0] == "CREATE" then CreateOp(book, command)
    else if command[0] == "DELETE" then DeleteOp(book, command[1])
    else book
  }

  predicate WellFormed(commands: seq<seq<string>>) {
    forall k | 0 <= k < |commands| :: |commands[k]| >= 8
  }

  function Fold(book: Book, commands: seq<seq<string>>): Book
    requires WellFormed(commands)
  {
    if commands == [] then book
    else Apply(Fold(book, commands[..|commands| - 1]), commands[|commands| - 1])
  }

  /** No creation meets a list that exists but is empty. */
  ghost predicate Servable(book: Book, commands: seq<seq<string>>) {
    && WellFormed(commands)
    && forall k | 0 <= k < |commands| && commands[k][0] == "CREATE" :: Fold(book, commands[..k]) != Some([])
  }

  /** A list that exists but is empty comes about exactly by deleting the one entry left. */
  lemma EmptiedExactly(book: Book, command: seq<string>)
    requires |command| >= 8 && book != Some([])
    ensures Apply(book, command) == Some([]) <==>
            command[0] == "DELETE" && book.Some? && |book.value| == 1 && book.value[0].user == command[1]
  {
    if command[0] == "DELETE" && book.Some? && Has(book.value, command[1]) {
      var i := FirstOf(book.value, command[1]);
      assert |Without(book.value, i)| == |book.value| - 1;
      if |book.value| == 1 {
        assert i == 0;
      }
    }
  }

  // ----- What deletions and creations do ------------------------------------------------------------

  function OfOthers(entries: seq<Entry>, user: string): seq<Entry> {
    if entries == [] then []
    else (if entries[0].user != user then [entries[0]] else []) + OfOthers(entries[1..], user)
  }

  function CountOf(entries: seq<Entry>, user: string): nat {
    if entries == [] then 0 else (if entries[0].user == user then 1 else 0) + CountOf(entries[1..], user)
  }

  lemma {:induction false} DeleteKeepsOthers(entries: seq<Entry>, user: string)
    requires Has(entries, user)
    ensures OfOthers(Without(entries, FirstOf(entries, user)), user) == OfOthers(entries, user)
  {
    if FirstOf(entries, user) == 0 {
      assert Without(entries, 0) == entries[1..];
    } else {
      WithoutLater(entries, user);
      DeleteKeepsOthers(entries[1..], user);
    }
  }

  lemma {:induction false} DeleteCountsDown(entries: seq<Entry>, user: string)
    requires Has(entries, user)
    ensures CountOf(Without(entries, FirstOf(entries, user)), user) == CountOf(entries, user) - 1
  {
    if FirstOf(entries, user) == 0 {
      assert Without(entries, 0) == entries[1..];
    } else {
      WithoutLater(entries, user);
      DeleteCountsDown(entries[1..], user);
    }
  }

  lemma WithoutLater(entries: seq<Entry>, user: string)
    requires Has(entries, user) && FirstOf(entries, user) > 0
    ensures Has(entries[1..], user) && FirstOf(entries, user) == 1 + FirstOf(entries[1..], user)
    ensures var left := Without(entries, FirstOf(entries, user));
            left != [] && left[0] == entries[0] && left[1..] == Without(entries[1..], FirstOf(entries[1..], user))
  {
  }

  lemma WithoutOne(entries: seq<Entry>, i: nat)
    requires i < |entries|
    ensures multiset(entries) == multiset(Without(entries, i)) + multiset{entries[i]}
  {
    assert entries == entries[..i] + [entries[i]] + entries[i + 1..];
  }

  /** Deleting takes one entry of the user, the first, and leaves everyone else's in order. */
  lemma DeleteTakesFirst(entries: seq<Entry>, user: string)
    requires Has(entries, user)
    ensures var left := Without(entries, FirstOf(entries, user));
            && OfOthers(left, user) == OfOthers(entries, user)
            && CountOf(left, user) == CountOf(entries, user) - 1
            && multiset(left) + multiset{entries[FirstOf(entries, user)]} == multiset(entries)
  {
    DeleteKeepsOthers(entries, user);
    DeleteCountsDown(entries, user);
    WithoutOne(entries, FirstOf(entries, user));
  }

  lemma {:induction false} FirstOfAppended(entries: seq<Entry>, user: string, entry: Entry)
    requires !Has(entries, user) && entry.user == user
    ensures FirstOf(entries + [entry], user) == |entries|
  {
    FirstIs(entries + [entry], user, |entries|);
  }

  /** Creating for a new user and deleting that user again restores the list. */
  lemma CreateThenDelete(entries: seq<Entry>, fields: seq<string>)
    requires |fields| >= 8 && !Has(entries, fields[0]) && !Has(entries, fields[1])
    ensures DeleteOp(CreateOp(Some(entries), fields), fields[1]) == Some(entries)
  {
    var entry := Entry(fields[1], fields[2], fields[3], Atoi(fields[7]));
    FirstOfAppended(entries, fields[1], entry);
    assert Without(entries + [entry], |entries|) == entries;
  }

  ghost predicate UsersDistinct(entries: seq<Entry>) {
    forall i, j | 0 <= i < j < |entries| :: entries[i].user != entries[j].user
  }

  /** The duplicate test looks for field 0, so users stay distinct only if the caller sees to it. */
  lemma CreateKeepsUsersDistinctIff(entries: seq<Entry>, fields: seq<string>)
    requires |fields| >= 8 && UsersDistinct(entries)
    ensures UsersDistinct(CreateOp(Some(entries), fields).value) <==> Has(entries, fields[0]) || !Has(entries, fields[1])
  {
    var entry := Entry(fields[1], fields[2], fields[3], Atoi(fields[7]));
    var after := entries + [entry];
    if Has(entries, fields[1]) {
      assert after[FirstOf(entries, fields[1])].user == after[|entries|].user;
    } else {
      FirstOfAppended(entries, fields[1], entry);
    }
  }

  /** The command word itself is field 0, so a repeated request is stored twice. */
  lemma RepeatedRequestIsStoredTwice(command: seq<string>)
    requires |command| >= 8 && command[0] == "CREATE" && command[1] != "CREATE"
    ensures var book := Fold(None, [command, command]);
            book.Some? && |book.value| == 2 && CountOf(book.value, command[1]) == 2
  {
    var first := Entry(command[1], command[3], command[3], Atoi(command[7]));
    var second := Entry(command[1], command[2], command[3], Atoi(command[7]));
    assert [command, command][..1] == [command] && [command][..0] == [];
    assert Fold(None, [command]) == Apply(Fold(None, []), command);
    assert Fold(None, [command, command]) == Apply(Fold(None, [command]), command);
    assert !Has([first], "CREATE");
    assert [first] + [second] == [first, second] && [first, second][1..] == [second];
    assert CountOf([second], command[1]) == 1 + CountOf([second][1..], command[1]);
    assert CountOf([first, second], command[1]) == 2;
  }

  // ----- Conservation ----------------------------------------------------------------------------------

  function InBook(book: Book): multiset<Entry> {
    if book.None? then multiset{} else multiset(book.value)
  }

  /** Entries a command adds to, and takes from, a book. */
  function Added(book: Book, command: seq<string>): multiset<Entry>
    requires |command| >= 8
  {
    multiset(Logged(book, command))
  }

  /** The entry a command adds, if it does. */
  function Logged(book: Book, command: seq<string>): seq<Entry>
    requires |command| >= 8
  {
    if command[0] != "CREATE" then []
    else if book.None? then [Entry(command[1], command[3], command[3], Atoi(command[7]))]
    else if exists i :: 0 <= i < |book.value| && book.value[i].user == "CREATE" then []
    else [Entry(command[1], command[2], command[3], Atoi(command[7]))]
  }

  function Taken(book: Book, command: seq<string>): multiset<Entry>
    requires |command| >= 8
  {
    if command[0] != "DELETE" || book.None? || !Has(book.value, command[1]) then multiset{}
    else multiset{book.value[FirstOf(book.value, command[1])]}
  }

  function AllAdded(commands: seq<seq<string>>): multiset<Entry>
    requires WellFormed(commands)
  {
    if commands == [] then multiset{}
    else
      var before := commands[..|commands| - 1];
      AllAdded(before) + Added(Fold(None, before), commands[|commands| - 1])
  }

  function AllTaken(commands: seq<seq<string>>): multiset<Entry>
    requires WellFormed(commands)
  {
    if commands == [] then multiset{}
    else
      var before := commands[..|commands| - 1];
      AllTaken(before) + Taken(Fold(None, before), commands[|commands| - 1])
  }

  lemma Rebalance<T>(added: multiset<T>, kept: multiset<T>, taken: multiset<T>, more: multiset<T>,
                     after: multiset<T>, less: multiset<T>)
    requires added == kept + taken && kept + more == after + less
    ensures added + more == after + (taken + less)
  {
    assert added + more == (kept + more) + taken;
  }

  /** Over any run, what was added is what is still there plus what was taken. */
  lemma {:induction false} EntriesAreConserved(commands: seq<seq<string>>)
    requires WellFormed(commands)
    ensures AllAdded(commands) == InBook(Fold(None, commands)) + AllTaken(commands)
  {
    if commands != [] {
      var before, command := commands[..|commands| - 1], commands[|commands| - 1];
      EntriesAreConserved(before);
      StepConserves(Fold(None, before), command);
      Rebalance(AllAdded(before), InBook(Fold(None, before)), AllTaken(before), Added(Fold(None, before), command),
                InBook(Fold(None, commands)), Taken(Fold(None, before), command));
    }
  }

  lemma StepConserves(book: Book, command: seq<string>)
    requires |command| >= 8
    ensures InBook(book) + Added(book, command) == InBook(Apply(book, command)) + Taken(book, command)
  {
    if command[0] == "DELETE" && book.Some? && Has(book.value, command[1]) {
      WithoutOne(book.value, FirstOf(book.value, command[1]));
    }
  }

  // ----- Order -----------------------------------------------------------------------------------------

  /** Everything that was ever added, in order. */
  function Log(commands: seq<seq<string>>): seq<Entry>
    requires WellFormed(commands)
  {
    if commands == [] then []
    else
      var before := commands[..|commands| - 1];
      Log(before) + Logged(Fold(None, before), commands[|commands| - 1])
  }

  /** The entries are those at the given places of the log, in the order of the log. */
  ghost predicate InLogOrder(entries: seq<Entry>, log: seq<Entry>, places: seq<nat>) {
    && |places| == |entries|
    && (forall i | 0 <= i < |places| :: places[i] < |log| && log[places[i]] == entries[i])
    && forall i, j | 0 <= i < j < |places| :: places[i] < places[j]
  }

  lemma DeletionKeepsOrder(entries: seq<Entry>, log: seq<Entry>, places: seq<nat>, i: nat)
    requires InLogOrder(entries, log, places) && i < |entries|
    ensures InLogOrder(Without(entries, i), log, places[..i] + places[i + 1..])
  {
  }

  lemma CreationKeepsOrder(entries: seq<Entry>, log: seq<Entry>, places: seq<nat>, entry: Entry)
    requires InLogOrder(entries, log, places)
    ensures InLogOrder(entries + [entry], log + [entry], places + [|log|])
  {
  }

  lemma StepKeepsOrder(book: Book, command: seq<string>, log: seq<Entry>, places: seq<nat>) returns (after: seq<nat>)
    requires |command| >= 8 && InLogOrder(if book.Some? then book.value else [], log, places)
    ensures var book' := Apply(book, command);
            InLogOrder(if book'.Some? then book'.value else [], log + Logged(book, command), after)
  {
    var entries := if book.Some? then book.value else [];
    var logged := Logged(book, command);
    after := places;
    if command[0] == "CREATE" {
      if logged == [] {
        assert log + logged == log;
      } else {
        CreationKeepsOrder(entries, log, places, logged[0]);
        after := places + [|log|];
        assert [] + [logged[0]] == logged;
      }
    } else {
      assert log + logged == log;
      if command[0] == "DELETE" && book.Some? && Has(book.value, command[1]) {
        var i := FirstOf(book.value, command[1]);
        DeletionKeepsOrder(entries, log, places, i);
        after := places[..i] + places[i + 1..];
      }
    }
  }

  /** After any run the list is in the order of creation. */
  lemma {:induction false} ListIsInCreationOrder(commands: seq<seq<string>>) returns (places: seq<nat>)
    requires WellFormed(commands)
    ensures var book := Fold(None, commands);
            InLogOrder(if book.Some? then book.value else [], Log(commands), places)
  {
    if commands == [] {
      places := [];
    } else {
      var before := commands[..|commands| - 1];
      places := ListIsInCreationOrder(before);
      places := StepKeepsOrder(Fold(None, before), commands[|commands| - 1], Log(before), places);
    }
  }
}
