/** The user-list utilities: `filterUsersByAge`, `sortUsersByName`, `findUserById`
    and `isEmailTaken`. A list holds user records and possibly other values (a
    nested array, say), which never match a query. */
module UsersList {
  import opened Common

  /** Message of the error thrown when the list argument is not an array. */
  const UsersNotArray := "Users must be an array"

  /** An age as stored in a record: a number, a numeric text such as "24", or absent. */
  datatype Age = AgeNum(n: int) | AgeText(text: string) | NoAge

  datatype User = User(id: int, name: string, age: Age, email: string)

  /** An element of a users array: a record, or another object such as a nested array. */
  datatype Entry = Rec(user: User) | NonRecord

  /** A list argument: an array, or any other value. */
  datatype Arg<A> = Arr(items: A) | NotArray

  // ---------------------------------------------------------------------------
  // Ages

  predicate IsDigit(c: char) {
    '0' <= c <= '9'
  }

  predicate AllDigits(t: string) {
    forall i :: 0 <= i < |t| ==> IsDigit(t[i])
  }

  function Pow10(n: nat): (p: nat)
    ensures p >= 1
  {
    if n == 0 then 1 else 10 * Pow10(n - 1)
  }

  /** The decimal value of a string of digits: less than 10 to the number of digits. */
  function DigitsValue(t: string): (v: nat)
    requires AllDigits(t)
    ensures v < Pow10(|t|)
  {
    if t == [] then 0
    else 10 * DigitsValue(t[..|t| - 1]) + (t[|t| - 1] as int - '0' as int)
  }

  /** The number an age compares as: a numeric text counts as its decimal value;
      any other text, and a missing age, is no number and lies in no range. */
  function NumericAge(a: Age): (r: Option<int>)
    ensures r.Some? <==> a.AgeNum? || (a.AgeText? && a.text != [] && AllDigits(a.text))
    ensures a.AgeNum? ==> r == Some(a.n)
    ensures a.AgeText? && r.Some? ==> r.value == DigitsValue(a.text) && r.value >= 0
  {
    match a
    case AgeNum(n) => Some(n)
    case AgeText(t) => if t != [] && AllDigits(t) then Some(DigitsValue(t)) else None
    case NoAge => None
  }

  /** Whether the age of `u` lies in [min, max], both ends included. */
  predicate InAgeRange(u: User, min: int, max: int)
    ensures InAgeRange(u, min, max) ==> min <= max
    ensures u.age.AgeNum? ==> (InAgeRange(u, min, max) <==> min <= u.age.n <= max)
    ensures u.age.NoAge? ==> !InAgeRange(u, min, max)
  {
    var a := NumericAge(u.age);
    a.Some? && min <= a.value <= max
  }

  /** A leading digit weighs 10 to the number of digits after it. */
  lemma {:induction false} DigitsValueLeadingDigit(d: char, t: string)
    requires IsDigit(d) && AllDigits(t)
    ensures AllDigits([d] + t)
    ensures DigitsValue([d] + t) == (d as int - '0' as int) * Pow10(|t|) + DigitsValue(t)
  {
    var s := [d] + t;
    assert AllDigits(s) by {
      forall i | 0 <= i < |s| ensures IsDigit(s[i]) {
        if i > 0 { assert s[i] == t[i - 1]; }
      }
    }
    var k := d as int - '0' as int;
    if t == [] {
      assert s[..0] == [];
      assert DigitsValue(s) == k;
    } else {
      var init := t[..|t| - 1];
      var last := t[|t| - 1] as int - '0' as int;
      assert s[..|s| - 1] == [d] + init;
      assert s[|s| - 1] == t[|t| - 1];
      assert AllDigits(init);
      DigitsValueLeadingDigit(d, init);
      var p := Pow10(|init|);
      var a := DigitsValue(init);
      assert DigitsValue(s) == 10 * (k * p + a) + last;
      assert DigitsValue(t) == 10 * a + last;
      assert Pow10(|t|) == 10 * p;
      MulShift(k, p);
    }
  }

  lemma MulShift(k: int, p: int)
    ensures 10 * (k * p) == k * (10 * p)
  {
  }

  lemma TextAgeComparesAsNumber()
    ensures NumericAge(AgeText("24")) == Some(24)
  {
    assert AllDigits("24");
    assert "24"[..1] == "2" && "2"[..0] == "";
    assert DigitsValue("2") == 2;
    assert DigitsValue("24") == 10 * 2 + 4;
  }

  // ---------------------------------------------------------------------------
  // filterUsersByAge

  /** The records of `entries` whose age lies in [min, max], in input order. */
  function FilterEntries(entries: seq<Entry>, min: int, max: int): (r: seq<User>)
    ensures |r| <= |entries|
    ensures forall u :: u in r <==> Rec(u) in entries && InAgeRange(u, min, max)
  {
    if entries == [] then []
    else
      var rest := FilterEntries(entries[1..], min, max);
      assert entries == [entries[0]] + entries[1..];
      if entries[0].Rec? && InAgeRange(entries[0].user, min, max) then [entries[0].user] + rest
      else rest
  }

  function FilterUsersByAge(users: Arg<seq<Entry>>, min: int, max: int): (r: Result<seq<User>>)
    ensures users.NotArray? ==> r == Err(UsersNotArray)
    ensures users.Arr? ==> r.Ok?
    ensures users.Arr? ==>
      forall u :: u in r.value <==> Rec(u) in users.items && InAgeRange(u, min, max)
    ensures users.Arr? ==> r.value == FilterEntries(users.items, min, max)
  {
    match users
    case NotArray => Err(UsersNotArray)
    case Arr(entries) => Ok(FilterEntries(entries, min, max))
  }

  /** Filtering a concatenation filters each part and keeps them in order: together
      with the one-element case this fixes the result, input order included. */
  lemma {:induction false} FilterEntriesAppend(xs: seq<Entry>, ys: seq<Entry>, min: int, max: int)
    ensures FilterEntries(xs + ys, min, max) == FilterEntries(xs, min, max) + FilterEntries(ys, min, max)
  {
    if xs != [] {
      assert (xs + ys)[1..] == xs[1..] + ys;
      FilterEntriesAppend(xs[1..], ys, min, max);
    } else {
      assert xs + ys == ys;
    }
  }

  lemma FilterEntriesSingle(e: Entry, min: int, max: int)
    ensures FilterEntries([e], min, max) ==
      if e.Rec? && InAgeRange(e.user, min, max) then [e.user] else []
  {
  }

  /** An empty range (min > max) selects nobody. */
  lemma {:induction false} FilterEmptyRange(entries: seq<Entry>, min: int, max: int)
    requires min > max
    ensures FilterEntries(entries, min, max) == []
  {
    if entries != [] {
      FilterEmptyRange(entries[1..], min, max);
    }
  }

  lemma StringAgeIsKeptAsText()
    ensures FilterEntries([Rec(User(1, "Alice", AgeText("24"), "alice@example.com"))], 23, 29)
      == [User(1, "Alice", AgeText("24"), "alice@example.com")]
  {
    TextAgeComparesAsNumber();
  }

  // ---------------------------------------------------------------------------
  // findUserById

  predicate HasId(e: Entry, id: int) {
    e.Rec? && e.user.id == id
  }

  /** The position of the first record with the given id, or |entries| if none. */
  function FirstWithId(entries: seq<Entry>, id: int): (k: nat)
    ensures k <= |entries|
    ensures k < |entries| ==> HasId(entries[k], id)
    ensures forall j :: 0 <= j < k ==> !HasId(entries[j], id)
  {
    if entries == [] then 0
    else if HasId(entries[0], id) then 0
    else 1 + FirstWithId(entries[1..], id)
  }

  /** The first record whose id is `id`, or null when there is none. */
  function FindUserById(users: Arg<seq<Entry>>, id: int): (r: Result<Option<User>>)
    ensures users.NotArray? ==> r == Err(UsersNotArray)
    ensures users.Arr? ==> r.Ok?
    ensures users.Arr? ==>
      (r.value.None? <==> forall j :: 0 <= j < |users.items| ==> !HasId(users.items[j], id))
    ensures users.Arr? && r.value.Some? ==>
      exists k :: 0 <= k < |users.items| && users.items[k] == Rec(r.value.value) &&
        r.value.value.id == id && forall j :: 0 <= j < k ==> !HasId(users.items[j], id)
  {
    match users
    case NotArray => Err(UsersNotArray)
    case Arr(entries) =>
      var k := FirstWithId(entries, id);
      if k < |entries| then Ok(Some(entries[k].user)) else Ok(None)
  }

  /** Entries that are not records (nested arrays) are never found. */
  lemma NonRecordsNeverFound(entries: seq<Entry>, id: int)
    requires forall j :: 0 <= j < |entries| ==> entries[j] == NonRecord
    ensures FindUserById(Arr(entries), id) == Ok(None)
  {
  }

  /** With duplicated ids, the earliest record is returned. */
  lemma DuplicateIdGivesFirst(a: User, b: User, rest: seq<Entry>)
    requires a.id == b.id
    ensures FindUserById(Arr([Rec(a), Rec(b)] + rest), a.id) == Ok(Some(a))
  {
  }

  // ---------------------------------------------------------------------------
  // isEmailTaken

  predicate HasEmail(e: Entry, email: string) {
    e.Rec? && e.user.email == email
  }

  /** Whether some record's email equals `email` exactly (case-sensitive). */
  function EmailIn(entries: seq<Entry>, email: string): (b: bool)
    ensures b <==> exists k :: 0 <= k < |entries| && HasEmail(entries[k], email)
  {
    if entries == [] then false
    else HasEmail(entries[0], email) || EmailIn(entries[1..], email)
  }

  function IsEmailTaken(users: Arg<seq<Entry>>, email: string): (r: Result<bool>)
    ensures users.NotArray? ==> r == Err(UsersNotArray)
    ensures users.Arr? ==> r.Ok?
    ensures users.Arr? ==>
      (r.value <==> exists k :: 0 <= k < |users.items| && HasEmail(users.items[k], email))
  {
    match users
    case NotArray => Err(UsersNotArray)
    case Arr(entries) => Ok(EmailIn(entries, email))
  }

  lemma NoEmailInEmptyList(email: string)
    ensures IsEmailTaken(Arr([]), email) == Ok(false)
  {
  }

  /** Upper-case stored emails do not match a lower-case query. */
  lemma EmailComparisonIsCaseSensitive()
    ensures IsEmailTaken(Arr([
      Rec(User(1, "Alice", AgeNum(25), "ALICE@EXAMPLE.COM")),
      Rec(User(2, "Bob", AgeNum(30), "BOB@EXAMPLE.COM"))]), "alice@example.com") == Ok(false)
  {
  }

  // ---------------------------------------------------------------------------
  // sortUsersByName

  /** Lexicographic order on names, character by character. */
  predicate LexLe(a: string, b: string)
    ensures a <= b ==> LexLe(a, b)
  {
    a == [] || (b != [] && (a[0] < b[0] || (a[0] == b[0] && LexLe(a[1..], b[1..]))))
  }

  lemma {:induction false} LexLeTotal(a: string, b: string)
    ensures LexLe(a, b) || LexLe(b, a)
  {
    if a != [] && b != [] && a[0] == b[0] {
      LexLeTotal(a[1..], b[1..]);
    }
  }

  lemma {:induction false} LexLeTransitive(a: string, b: string, c: string)
    requires LexLe(a, b) && LexLe(b, c)
    ensures LexLe(a, c)
  {
    if a != [] && b != [] && c != [] && a[0] == b[0] == c[0] {
      LexLeTransitive(a[1..], b[1..], c[1..]);
    }
  }

  lemma {:induction false} LexLeAntisymmetric(a: string, b: string)
    requires LexLe(a, b) && LexLe(b, a)
    ensures a == b
  {
    if a != [] && b != [] {
      LexLeAntisymmetric(a[1..], b[1..]);
      assert a == [a[0]] + a[1..] && b == [b[0]] + b[1..];
    }
  }

  predicate SortedByName(s: seq<User>) {
    forall i, j :: 0 <= i < j < |s| ==> LexLe(s[i].name, s[j].name)
  }

  /** Sort `a` in place by name (insertion sort). */
  method InsertionSortByName(a: array<User>)
    modifies a
    ensures SortedByName(a[..])
    ensures multiset(a[..]) == multiset(old(a[..]))
  {
    var i := 0;
    while i < a.Length
      invariant 0 <= i <= a.Length
      invariant forall p, q :: 0 <= p < q < i ==> LexLe(a[p].name, a[q].name)
      invariant multiset(a[..]) == multiset(old(a[..]))
    {
      var j := i;
      while j > 0 && !LexLe(a[j - 1].name, a[j].name)
        invariant 0 <= j <= i
        invariant forall p, q :: 0 <= p < q <= i && p != j && q != j ==> LexLe(a[p].name, a[q].name)
        invariant forall q :: j < q <= i ==> LexLe(a[j].name, a[q].name)
        invariant multiset(a[..]) == multiset(old(a[..]))
      {
        LexLeTotal(a[j - 1].name, a[j].name);
        a[j - 1], a[j] := a[j], a[j - 1];
        j := j - 1;
      }
      if j > 0 {
        forall p | 0 <= p < j - 1 {
          LexLeTransitive(a[p].name, a[j - 1].name, a[j].name);
        }
      }
      i := i + 1;
    }
  }

  /** A new array holding the records ordered by name; the caller's array is left
      as it was. */
  method SortUsersByName(users: Arg<array<User>>) returns (r: Result<array<User>>)
    ensures users.NotArray? ==> r == Err(UsersNotArray)
    ensures users.Arr? ==> r.Ok? && fresh(r.value)
    ensures users.Arr? ==> users.items[..] == old(users.items[..])
    ensures users.Arr? ==> SortedByName(r.value[..])
    ensures users.Arr? ==> multiset(r.value[..]) == multiset(users.items[..])
  {
    match users
    case NotArray =>
      r := Err(UsersNotArray);
    case Arr(original) =>
      var copy := new User[original.Length];
      forall k | 0 <= k < original.Length {
        copy[k] := original[k];
      }
      assert copy[..] == original[..];
      InsertionSortByName(copy);
      r := Ok(copy);
  }
}
