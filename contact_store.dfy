/**
  The session's contact list as an object whose operations change it in
  place: append, search, remove the first exact-name match and replace the
  phone of the first exact-name match.
*/
module Store {
  import opened Wrappers
  import opened PyStr
  import opened Validation
  import opened Contacts

  /** What an update reports: done, no contact of that name, or a phone
      that would be asked for again. */
  datatype UpdateOutcome = Updated | NotFound | InvalidPhone

  class ContactStore {
    /** The contacts in insertion order. */
    var contacts: seq<Contact>

    /** A store holding the rows read at start-up, which are not validated. */
    constructor (loaded: seq<Contact>)
      ensures contacts == loaded
    {
      contacts := loaded;
    }

    /** `add_contact`: append the contact built from the three answers, or
        leave the list alone when the phone or the email is not acceptable. */
    method Add(rawName: string, rawPhone: string, rawEmail: string) returns (added: bool)
      modifies this
      ensures added <==> IsValidPhone(Strip(rawPhone)) && IsValidEmail(Strip(rawEmail))
      ensures added ==> contacts == old(contacts) + [NewContact(rawName, rawPhone, rawEmail).value]
      ensures !added ==> contacts == old(contacts)
      ensures added ==> ValidContact(contacts[|contacts| - 1])
      ensures AllValid(old(contacts)) ==> AllValid(contacts)
    {
      var c := NewContact(rawName, rawPhone, rawEmail);
      added := c.Some?;
      if added {
        if AllValid(contacts) { AppendValid(contacts, c.value); }
        contacts := contacts + [c.value];
      }
    }

    /** `search_contact`: the contacts whose lower-cased name contains the
        stripped, lower-cased term, in list order, and whether there were any. */
    method Search(rawTerm: string) returns (reported: seq<Contact>, found: bool)
      ensures reported == Matching(contacts, SearchKey(rawTerm))
      ensures found <==> exists i :: 0 <= i < |contacts| && NameMatches(contacts[i], SearchKey(rawTerm))
    {
      var term := SearchKey(rawTerm);
      reported, found := [], false;
      var i := 0;
      while i < |contacts|
        invariant 0 <= i <= |contacts|
        invariant reported == Matching(contacts[..i], term)
        invariant found <==> reported != []
      {
        var c := contacts[i];
        assert contacts[..i + 1][..i] == contacts[..i];
        if NameMatches(c, term) {
          reported := reported + [c];
          found := true;
        }
        i := i + 1;
      }
      assert contacts[..i] == contacts;
      MatchingNone(contacts, term);
    }

    /** `remove_contact`: delete the first contact whose name is exactly the
        normalised name; report whether there was one. */
    method Remove(rawName: string) returns (removed: bool)
      modifies this
      ensures removed <==> FirstIndex(old(contacts), NormalizeName(rawName)).Some?
      ensures contacts == RemoveFirst(old(contacts), NormalizeName(rawName))
      ensures AllValid(old(contacts)) ==> AllValid(contacts)
    {
      var key := NormalizeName(rawName);
      var i := 0;
      while i < |contacts|
        invariant 0 <= i <= |contacts|
        invariant contacts == old(contacts)
        invariant forall j :: 0 <= j < i ==> contacts[j].fullName != key
      {
        if contacts[i].fullName == key {
          assert FirstIndex(contacts, key) == Some(i);
          ListRemoveFirstMatch(contacts, key);
          if AllValid(contacts) { RemoveFirstValid(contacts, key); }
          contacts := ListRemove(contacts, contacts[i]);
          return true;
        }
        i := i + 1;
      }
      return false;
    }

    /** `update_contact`: give the first contact whose name is exactly the
        normalised name the stripped new phone, provided it is valid. */
    method UpdatePhone(rawName: string, rawPhone: string) returns (outcome: UpdateOutcome)
      modifies this
      ensures outcome == NotFound <==> FirstIndex(old(contacts), NormalizeName(rawName)).None?
      ensures outcome == InvalidPhone <==>
        FirstIndex(old(contacts), NormalizeName(rawName)).Some? && !IsValidPhone(Strip(rawPhone))
      ensures contacts ==
        if outcome == Updated then UpdatePhoneFirst(old(contacts), NormalizeName(rawName), Strip(rawPhone))
        else old(contacts)
      ensures outcome == Updated ==>
        IsValidPhone(contacts[FirstIndex(old(contacts), NormalizeName(rawName)).value].phone)
      ensures AllValid(old(contacts)) ==> AllValid(contacts)
    {
      var key := NormalizeName(rawName);
      var i := 0;
      while i < |contacts|
        invariant 0 <= i <= |contacts|
        invariant contacts == old(contacts)
        invariant forall j :: 0 <= j < i ==> contacts[j].fullName != key
      {
        if contacts[i].fullName == key {
          assert FirstIndex(contacts, key) == Some(i);
          var newPhone := Strip(rawPhone);
          if !IsValidPhone(newPhone) {
            return InvalidPhone;
          }
          if AllValid(contacts) { UpdatePhoneValid(contacts, key, newPhone); }
          assert UpdatePhoneFirst(contacts, key, newPhone) == contacts[i := contacts[i].(phone := newPhone)];
          contacts := contacts[i := contacts[i].(phone := newPhone)];
          return Updated;
        }
        i := i + 1;
      }
      return NotFound;
    }
  }
}
