/**
  A contact record and the list operations over an ordered sequence of
  contacts, stated as functions: search, first exact-name match, removal
  of that match and replacement of its phone.
*/
module Contacts {
  import opened Wrappers
  import opened PyStr
  import opened Validation

  /** One row of the contact list: the dictionary keys `Full Name`, `phone`, `email`. */
  datatype Contact = Contact(fullName: string, phone: string, email: string)

  /** The column header, in order, of the saved file. */
  const FieldNames: seq<string> := ["Full Name", "phone", "email"]

  /** What every contact entered in a session satisfies. */
  predicate ValidContact(c: Contact) {
    IsValidPhone(c.phone) && IsValidEmail(c.email)
  }

  predicate AllValid(cs: seq<Contact>) {
    forall i :: 0 <= i < |cs| ==> ValidContact(cs[i])
  }

  // ------------------------------------------------------------------ add

  /** The contact `add_contact` builds from its three answers, or None when
      the phone or the email answer would be asked for again. */
  function NewContact(rawName: string, rawPhone: string, rawEmail: string): (r: Option<Contact>)
    ensures r.Some? <==> IsValidPhone(Strip(rawPhone)) && IsValidEmail(Strip(rawEmail))
    ensures r.Some? ==> ValidContact(r.value)
    ensures r.Some? ==> r.value.fullName == NormalizeName(rawName) && Trimmed(r.value.fullName)
    ensures r.Some? ==> r.value.phone == Strip(rawPhone) && r.value.email == Lower(Strip(rawEmail))
  {
    var phone := Strip(rawPhone);
    var email := Strip(rawEmail);
    if IsValidPhone(phone) && IsValidEmail(email) then
      LowerEmail(email);
      TitleKeepsTrimmed(Strip(rawName));
      Some(Contact(NormalizeName(rawName), phone, Lower(email)))
    else
      None
  }

  /** Appending a valid contact keeps every contact valid. */
  lemma AppendValid(cs: seq<Contact>, c: Contact)
    requires AllValid(cs) && ValidContact(c)
    ensures AllValid(cs + [c])
  {
  }

  // --------------------------------------------------------------- search

  /** `search_term in contact['Full Name'].lower()` */
  predicate NameMatches(c: Contact, term: string) {
    Contains(Lower(c.fullName), term)
  }

  /** The contacts that search reports, in list order. */
  function Matching(cs: seq<Contact>, term: string): (r: seq<Contact>)
    ensures |r| <= |cs|
    ensures forall k :: 0 <= k < |r| ==> NameMatches(r[k], term)
  {
    if cs == [] then []
    else
      var last := cs[|cs| - 1];
      Matching(cs[..|cs| - 1], term) + (if NameMatches(last, term) then [last] else [])
  }

  predicate StrictlyIncreasing(idx: seq<nat>) {
    forall a, b :: 0 <= a < b < |idx| ==> idx[a] < idx[b]
  }

  /** The result of search is the subsequence of the list at exactly the
      positions whose name matches, in increasing order. */
  lemma {:induction false} MatchingPositions(cs: seq<Contact>, term: string) returns (idx: seq<nat>)
    ensures |idx| == |Matching(cs, term)|
    ensures StrictlyIncreasing(idx)
    ensures forall k :: 0 <= k < |idx| ==> idx[k] < |cs| && Matching(cs, term)[k] == cs[idx[k]]
    ensures forall i :: 0 <= i < |cs| ==> (NameMatches(cs[i], term) <==> i in idx)
  {
    if cs == [] {
      idx := [];
    } else {
      var n := |cs| - 1;
      var front := cs[..n];
      var prev := MatchingPositions(front, term);
      var m := Matching(cs, term);
      var pm := Matching(front, term);
      assert m == pm + (if NameMatches(cs[n], term) then [cs[n]] else []);
      assert forall i :: 0 <= i < n ==> front[i] == cs[i];
      if NameMatches(cs[n], term) {
        idx := prev + [n];
        assert m[|pm|] == cs[n];
        forall k | 0 <= k < |prev| ensures idx[k] < |cs| && m[k] == cs[idx[k]] {
          assert idx[k] == prev[k] && m[k] == pm[k];
        }
        forall i | 0 <= i < |cs| ensures NameMatches(cs[i], term) <==> i in idx {
          assert i in idx <==> i in prev || i == n;
        }
      } else {
        idx := prev;
        assert m == pm;
        forall i | 0 <= i < |cs| ensures NameMatches(cs[i], term) <==> i in idx {
          if i == n { assert n !in prev; }
        }
      }
    }
  }

  /** An empty search term matches every contact. */
  lemma {:induction false} MatchingEmptyTerm(cs: seq<Contact>)
    ensures Matching(cs, "") == cs
  {
    if cs != [] {
      MatchingEmptyTerm(cs[..|cs| - 1]);
      ContainsEmpty(Lower(cs[|cs| - 1].fullName));
    }
  }

  /** A blank raw search term reports every contact. */
  lemma MatchingBlankTerm(cs: seq<Contact>, raw: string)
    requires AllSpace(raw)
    ensures Matching(cs, SearchKey(raw)) == cs
  {
    BlankSearchKey(raw);
    MatchingEmptyTerm(cs);
  }

  /** Search reports nothing exactly when no name matches. */
  lemma {:induction false} MatchingNone(cs: seq<Contact>, term: string)
    ensures Matching(cs, term) == [] <==> forall i :: 0 <= i < |cs| ==> !NameMatches(cs[i], term)
  {
    if cs != [] {
      var n := |cs| - 1;
      MatchingNone(cs[..n], term);
      assert forall i :: 0 <= i < n ==> cs[..n][i] == cs[i];
    }
  }

  lemma SearchExampleMatches(p: string, e: string)
    ensures NameMatches(Contact("John Smith", p, e), "jo")
    ensures NameMatches(Contact("Jane Johnson", p, e), "jo")
  {
    assert Lower("John Smith") == "john smith";
    assert Lower("Jane Johnson") == "jane johnson";
    assert OccursAt("john smith", "jo", 0);
    assert OccursAt("jane johnson", "jo", 5);
  }

  lemma SearchExampleMisses(p: string, e: string)
    ensures !NameMatches(Contact("Bob Brown", p, e), "jo")
  {
    assert Lower("Bob Brown") == "bob brown";
    NotContainsMissingFirst("bob brown", "jo");
  }

  /** Search is case-insensitive and looks for a substring anywhere in the name. */
  lemma SearchExample(p: string, e: string)
    ensures
      var john, jane, bob := Contact("John Smith", p, e), Contact("Jane Johnson", p, e), Contact("Bob Brown", p, e);
      Matching([john, jane, bob], SearchKey(" JO ")) == [john, jane]
  {
    var john, jane, bob := Contact("John Smith", p, e), Contact("Jane Johnson", p, e), Contact("Bob Brown", p, e);
    SearchKeyExample();
    SearchExampleMatches(p, e);
    SearchExampleMisses(p, e);
    var cs := [john, jane, bob];
    assert cs[..2] == [john, jane] && [john, jane][..1] == [john] && [john][..0] == [];
    assert Matching([john], "jo") == [john];
    assert Matching([john, jane], "jo") == [john, jane];
    assert Matching(cs, "jo") == Matching([john, jane], "jo");
  }

  lemma SearchKeyExample()
    ensures SearchKey(" JO ") == "jo"
  {
    assert Strip(" JO ") == "JO";
  }

  // ---------------------------------------------------- first exact match

  /** The position of the first contact whose name is exactly `key`. */
  function FirstIndex(cs: seq<Contact>, key: string): (r: Option<nat>)
    ensures r.Some? ==> r.value < |cs| && cs[r.value].fullName == key
    ensures r.Some? ==> forall j :: 0 <= j < r.value ==> cs[j].fullName != key
    ensures r.None? ==> forall j :: 0 <= j < |cs| ==> cs[j].fullName != key
  {
    if cs == [] then None
    else if cs[0].fullName == key then Some(0)
    else match FirstIndex(cs[1..], key)
      case None => None
      case Some(j) => Some(j + 1)
  }

  /** The contact found under a normalised name is also reported by a search
      for that same raw name. */
  lemma FoundByNameIsSearchable(cs: seq<Contact>, raw: string)
    requires FirstIndex(cs, NormalizeName(raw)).Some?
    ensures cs[FirstIndex(cs, NormalizeName(raw)).value] in Matching(cs, SearchKey(raw))
  {
    var i := FirstIndex(cs, NormalizeName(raw)).value;
    SearchKeyOfName(raw);
    ContainsSelf(SearchKey(raw));
    var idx := MatchingPositions(cs, SearchKey(raw));
    var k :| 0 <= k < |idx| && idx[k] == i;
    assert Matching(cs, SearchKey(raw))[k] == cs[i];
  }

  // --------------------------------------------------------------- remove

  /** The list with its first contact named `key` deleted; unchanged if there is none. */
  function RemoveFirst(cs: seq<Contact>, key: string): seq<Contact> {
    match FirstIndex(cs, key)
    case None => cs
    case Some(i) => cs[..i] + cs[i + 1..]
  }

  /** Python's `list.remove(v)`: delete the first element equal to `v`. */
  function ListRemove(cs: seq<Contact>, v: Contact): (r: seq<Contact>)
    requires v in cs
    ensures |r| == |cs| - 1
  {
    if cs[0] == v then cs[1..] else [cs[0]] + ListRemove(cs[1..], v)
  }

  /** `list.remove` of an element that does not occur earlier deletes its position. */
  lemma {:induction false} ListRemoveAt(cs: seq<Contact>, i: nat)
    requires i < |cs|
    requires forall j :: 0 <= j < i ==> cs[j] != cs[i]
    ensures ListRemove(cs, cs[i]) == cs[..i] + cs[i + 1..]
  {
    if i > 0 {
      var tail := cs[1..];
      assert tail[i - 1] == cs[i];
      assert forall j :: 0 <= j < i - 1 ==> tail[j] == cs[j + 1];
      ListRemoveAt(tail, i - 1);
      assert ListRemove(cs, cs[i]) == [cs[0]] + ListRemove(tail, cs[i]);
      assert tail[..i - 1] == cs[1..i] && tail[i..] == cs[i + 1..];
      assert [cs[0]] + cs[1..i] == cs[..i];
    }
  }

  /** Deleting the matched contact by value deletes the position that was
      matched: no earlier contact can equal it, since its name would have matched first. */
  lemma ListRemoveFirstMatch(cs: seq<Contact>, key: string)
    requires FirstIndex(cs, key).Some?
    ensures ListRemove(cs, cs[FirstIndex(cs, key).value]) == RemoveFirst(cs, key)
  {
    ListRemoveAt(cs, FirstIndex(cs, key).value);
  }

  /** How many contacts are named exactly `key`. */
  function CountNamed(cs: seq<Contact>, key: string): nat {
    if cs == [] then 0 else (if cs[0].fullName == key then 1 else 0) + CountNamed(cs[1..], key)
  }

  lemma {:induction false} CountNamedAppend(a: seq<Contact>, b: seq<Contact>, key: string)
    ensures CountNamed(a + b, key) == CountNamed(a, key) + CountNamed(b, key)
  {
    if a != [] {
      assert (a + b)[1..] == a[1..] + b;
      CountNamedAppend(a[1..], b, key);
    } else {
      assert a + b == b;
    }
  }

  lemma {:induction false} CountNamedNone(cs: seq<Contact>, key: string)
    requires forall j :: 0 <= j < |cs| ==> cs[j].fullName != key
    ensures CountNamed(cs, key) == 0
  {
    if cs != [] { CountNamedNone(cs[1..], key); }
  }

  /** Removal by name: only the first contact named `key` goes; the others
      keep their order, and later namesakes stay. */
  lemma RemoveFirstSpec(cs: seq<Contact>, key: string)
    ensures FirstIndex(cs, key).None? ==> RemoveFirst(cs, key) == cs
    ensures FirstIndex(cs, key).Some? ==>
      var i, r := FirstIndex(cs, key).value, RemoveFirst(cs, key);
      && |r| == |cs| - 1
      && (forall j :: 0 <= j < i ==> r[j] == cs[j])
      && (forall j :: i <= j < |r| ==> r[j] == cs[j + 1])
      && multiset(r) + multiset{cs[i]} == multiset(cs)
      && CountNamed(r, key) + 1 == CountNamed(cs, key)
  {
    if FirstIndex(cs, key).Some? {
      var i := FirstIndex(cs, key).value;
      assert cs == cs[..i] + [cs[i]] + cs[i + 1..];
      CountNamedAppend(cs[..i] + [cs[i]], cs[i + 1..], key);
      CountNamedAppend(cs[..i], [cs[i]], key);
      CountNamedAppend(cs[..i], cs[i + 1..], key);
      CountNamedNone(cs[..i], key);
    }
  }

  lemma RemoveFirstValid(cs: seq<Contact>, key: string)
    requires AllValid(cs)
    ensures AllValid(RemoveFirst(cs, key))
  {
    RemoveFirstSpec(cs, key);
  }

  /** Two namesakes: the one entered first is removed, the other stays
      (whether or not the two records differ in phone or email). */
  lemma RemoveDuplicateExample(a: Contact, b: Contact)
    requires a.fullName == "John Smith" && b.fullName == "John Smith"
    ensures RemoveFirst([a, b], "John Smith") == [b]
  {
  }

  // --------------------------------------------------------------- update

  /** The list with the phone of its first contact named `key` replaced. */
  function UpdatePhoneFirst(cs: seq<Contact>, key: string, phone: string): (r: seq<Contact>)
    ensures |r| == |cs|
    ensures forall j :: 0 <= j < |cs| ==> r[j].fullName == cs[j].fullName && r[j].email == cs[j].email
    ensures forall j :: 0 <= j < |cs| && r[j] != cs[j] ==> FirstIndex(cs, key) == Some(j)
    ensures FirstIndex(cs, key).Some? ==> r[FirstIndex(cs, key).value].phone == phone
  {
    match FirstIndex(cs, key)
    case None => cs
    case Some(i) => cs[i := cs[i].(phone := phone)]
  }

  /** A valid new phone keeps every contact valid. */
  lemma UpdatePhoneValid(cs: seq<Contact>, key: string, phone: string)
    requires AllValid(cs) && IsValidPhone(phone)
    ensures AllValid(UpdatePhoneFirst(cs, key, phone))
  {
  }
}
