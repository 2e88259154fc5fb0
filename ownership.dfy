/**
 * Owner selection of `get_ip_owner`, once the RDAP data is in hand.
 * The record is the parsed RDAP answer: its objects in the order the
 * lookup returned them, the network name and the ASN description. A lookup
 * that raised (network failure, bad answer) is `None`.
 */
module Ownership {
  import opened Wrappers

  /**
   * The `contact` entry of an RDAP object: absent, present with the value
   * null (an entity without contact card), or a contact whose `kind` and
   * `name` may each be absent or null (`None`).
   */
  datatype ContactEntry = NoContact | NullContact | Contact(kind: Option<string>, name: Option<string>)

  datatype RdapObject = RdapObject(contact: ContactEntry)

  datatype RdapRecord = RdapRecord(
    objects: seq<RdapObject>,
    networkName: Option<string>,
    asnDescription: Option<string>)

  /** The sentinel owner for "no usable data". */
  const Unknown: string := "Unknown"

  /** Python truthiness of an optional string: present and non-empty. */
  predicate Truthy(v: Option<string>) {
    v.Some? && v.value != ""
  }

  /** An object whose contact is an organisation with a non-empty name. */
  predicate IsOrg(o: RdapObject) {
    o.contact.Contact? && o.contact.kind == Some("org") && Truthy(o.contact.name)
  }

  predicate HasOrg(objects: seq<RdapObject>) {
    exists i :: 0 <= i < |objects| && IsOrg(objects[i])
  }

  /** Object `i` is the first organisation object. */
  predicate IsFirstOrg(objects: seq<RdapObject>, i: int) {
    0 <= i < |objects| && IsOrg(objects[i]) && forall j :: 0 <= j < i ==> !IsOrg(objects[j])
  }

  /**
   * Tier 1: the name of the first organisation object, if there is one.
   * A contact that is null is treated as no contact (see `ScanAsWritten`
   * for what the script does with it).
   */
  function OrgName(objects: seq<RdapObject>): (r: Option<string>)
    ensures r.None? <==> !HasOrg(objects)
    ensures r.Some? ==> exists i :: IsFirstOrg(objects, i) && r.value == objects[i].contact.name.value
  {
    if objects == [] then None
    else if IsOrg(objects[0]) then Some(objects[0].contact.name.value)
    else
      var r := OrgName(objects[1..]);
      assert forall i :: 1 <= i < |objects| ==> objects[i] == objects[1..][i - 1];
      if r.Some? then
        var i :| IsFirstOrg(objects[1..], i) && r.value == objects[1..][i].contact.name.value;
        assert IsFirstOrg(objects, i + 1);
        r
      else r
  }

  /** Tiers 2 to 4: the network name, then the ASN description, then "Unknown". */
  function Fallback(rec: RdapRecord): (owner: string)
    ensures owner != ""
  {
    if Truthy(rec.networkName) then rec.networkName.value
    else if Truthy(rec.asnDescription) then rec.asnDescription.value
    else Unknown
  }

  /**
   * The owner reported for an address: never empty, and "Unknown" when the
   * lookup failed. `OwnerPrecedence` states which tier supplies it.
   */
  function Owner(lookup: Option<RdapRecord>): (owner: string)
    ensures owner != ""
    ensures lookup.None? ==> owner == Unknown
  {
    match lookup
    case None => Unknown
    case Some(rec) =>
      match OrgName(rec.objects)
      case Some(name) => name
      case None => Fallback(rec)
  }

  /**
   * The first organisation object wins; otherwise a non-empty network name;
   * otherwise a non-empty ASN description; otherwise "Unknown".
   */
  lemma OwnerPrecedence(rec: RdapRecord)
    ensures var owner := Owner(Some(rec));
      && (forall i :: IsFirstOrg(rec.objects, i) ==> owner == rec.objects[i].contact.name.value)
      && (!HasOrg(rec.objects) && Truthy(rec.networkName) ==> owner == rec.networkName.value)
      && (!HasOrg(rec.objects) && !Truthy(rec.networkName) && Truthy(rec.asnDescription) ==>
            owner == rec.asnDescription.value)
      && (!HasOrg(rec.objects) && !Truthy(rec.networkName) && !Truthy(rec.asnDescription) ==>
            owner == Unknown)
  {
    var r := OrgName(rec.objects);
    if r.Some? {
      var k :| IsFirstOrg(rec.objects, k) && r.value == rec.objects[k].contact.name.value;
      forall i | IsFirstOrg(rec.objects, i) ensures i == k {
      }
    }
  }

  /** Outcome of the script's loop over the objects. */
  datatype Scan = Found(name: string) | NotFound | Raised

  /**
   * The loop as written: `obj_data.get('contact', {})` yields null for a
   * contact stored as null, and `.get('kind')` on it raises, which ends the
   * whole lookup in the catch-all handler.
   */
  function ScanAsWritten(objects: seq<RdapObject>): (r: Scan)
    ensures r.Found? ==> exists i :: IsFirstOrg(objects, i) && r.name == objects[i].contact.name.value
    ensures r.NotFound? ==> !HasOrg(objects)
    ensures r.Raised? ==> exists i :: 0 <= i < |objects| && objects[i].contact.NullContact?
  {
    if objects == [] then NotFound
    else
      var r := ScanAsWritten(objects[1..]);
      assert forall i :: 1 <= i < |objects| ==> objects[i] == objects[1..][i - 1];
      match objects[0].contact
      case NullContact => Raised
      case NoContact =>
        if r.Found? then
          var i :| IsFirstOrg(objects[1..], i) && r.name == objects[1..][i].contact.name.value;
          assert IsFirstOrg(objects, i + 1);
          r
        else r
      case Contact(kind, name) =>
        if kind == Some("org") && Truthy(name) then Found(name.value)
        else if r.Found? then
          var i :| IsFirstOrg(objects[1..], i) && r.name == objects[1..][i].contact.name.value;
          assert IsFirstOrg(objects, i + 1);
          r
        else r
  }

  /** `get_ip_owner` as written, including the exception raised on a null contact. */
  function OwnerAsWritten(lookup: Option<RdapRecord>): (owner: string)
    ensures owner != ""
    ensures lookup.None? ==> owner == Unknown
  {
    match lookup
    case None => Unknown
    case Some(rec) =>
      match ScanAsWritten(rec.objects)
      case Found(name) => name
      case Raised => Unknown
      case NotFound => Fallback(rec)
  }

  /** Without null contacts the script's loop and the corrected search agree. */
  lemma {:induction false} ScanAgrees(objects: seq<RdapObject>)
    requires forall i :: 0 <= i < |objects| ==> !objects[i].contact.NullContact?
    ensures ScanAsWritten(objects) == (match OrgName(objects) case Some(n) => Found(n) case None => NotFound)
  {
    if objects != [] {
      assert forall i :: 1 <= i < |objects| ==> objects[i] == objects[1..][i - 1];
      ScanAgrees(objects[1..]);
    }
  }

  lemma AsWrittenAgreesWithoutNullContacts(lookup: Option<RdapRecord>)
    requires lookup.Some? ==> forall i :: 0 <= i < |lookup.value.objects| ==> !lookup.value.objects[i].contact.NullContact?
    ensures OwnerAsWritten(lookup) == Owner(lookup)
  {
    if lookup.Some? {
      ScanAgrees(lookup.value.objects);
    }
  }

  /** As written, a null contact ahead of every organisation object turns the answer into "Unknown". */
  lemma {:induction false} NullContactAbortsScan(objects: seq<RdapObject>, k: int)
    requires 0 <= k < |objects| && objects[k].contact.NullContact?
    requires forall j :: 0 <= j < k ==> !IsOrg(objects[j])
    ensures ScanAsWritten(objects) == Raised
  {
    if k > 0 {
      assert forall i :: 1 <= i < |objects| ==> objects[i] == objects[1..][i - 1];
      NullContactAbortsScan(objects[1..], k - 1);
    }
  }

  /** Some object before position `n` has a contact stored as null. */
  predicate NullBefore(objects: seq<RdapObject>, n: int) {
    exists j :: 0 <= j < n && j < |objects| && objects[j].contact.NullContact?
  }

  /**
   * What the loop as written answers, in every case: the first organisation
   * object's name when no null contact comes ahead of it, "not found" when
   * there is neither an organisation object nor a null contact, and the
   * exception otherwise.
   */
  lemma {:induction false} ScanAsWrittenCharacterized(objects: seq<RdapObject>)
    ensures ScanAsWritten(objects).Found? <==> exists i :: IsFirstOrg(objects, i) && !NullBefore(objects, i)
    ensures ScanAsWritten(objects).NotFound? <==> !HasOrg(objects) && !NullBefore(objects, |objects|)
    ensures ScanAsWritten(objects).Raised? <==>
      exists k :: 0 <= k < |objects| && objects[k].contact.NullContact? && !HasOrg(objects[..k])
  {
    if objects == [] {
      return;
    }
    var tail := objects[1..];
    assert forall i :: 1 <= i < |objects| ==> objects[i] == tail[i - 1];
    ScanAsWrittenCharacterized(tail);
    var o := objects[0];
    if o.contact.NullContact? {
      assert NullBefore(objects, |objects|);
      forall i | IsFirstOrg(objects, i) ensures NullBefore(objects, i) {
        assert i > 0;
      }
      assert objects[..0] == [];
    } else if IsOrg(o) {
      assert IsFirstOrg(objects, 0) && !NullBefore(objects, 0);
      assert HasOrg(objects);
      forall k | 0 <= k < |objects| && objects[k].contact.NullContact? ensures HasOrg(objects[..k]) {
        assert k > 0 && objects[..k][0] == o;
      }
    } else {
      // The head neither stops the loop nor is picked: every claim moves one place along.
      assert forall i :: 1 <= i <= |objects| ==> (NullBefore(objects, i) <==> NullBefore(tail, i - 1));
      assert forall i :: IsFirstOrg(objects, i) <==> 1 <= i && IsFirstOrg(tail, i - 1);
      assert HasOrg(objects) <==> HasOrg(tail);
      if ScanAsWritten(tail).Found? {
        var i :| IsFirstOrg(tail, i) && !NullBefore(tail, i);
        assert IsFirstOrg(objects, i + 1) && !NullBefore(objects, i + 1);
      }
      forall k | 1 <= k <= |objects| ensures HasOrg(objects[..k]) <==> HasOrg(tail[..k - 1]) {
        assert forall j :: 1 <= j < k ==> objects[..k][j] == tail[..k - 1][j - 1];
        assert objects[..k][0] == o;
      }
      if ScanAsWritten(tail).Raised? {
        var k :| 0 <= k < |tail| && tail[k].contact.NullContact? && !HasOrg(tail[..k]);
        assert objects[k + 1].contact.NullContact? && !HasOrg(objects[..k + 1]);
      }
      forall k | 0 <= k < |objects| && objects[k].contact.NullContact? && !HasOrg(objects[..k])
        ensures ScanAsWritten(tail).Raised?
      {
        assert k > 0;
        assert tail[k - 1].contact.NullContact? && !HasOrg(tail[..k - 1]);
      }
    }
  }

  /**
   * As written, an organisation object ahead of every null contact supplies
   * the owner, even when null contacts follow it.
   */
  lemma OrgAheadOfNullContactsWins(rec: RdapRecord, i: int)
    requires IsFirstOrg(rec.objects, i) && !NullBefore(rec.objects, i)
    ensures OwnerAsWritten(Some(rec)) == rec.objects[i].contact.name.value
  {
    ScanAsWrittenCharacterized(rec.objects);
    var k :| IsFirstOrg(rec.objects, k) && ScanAsWritten(rec.objects).name == rec.objects[k].contact.name.value;
    forall j | IsFirstOrg(rec.objects, j) ensures j == i {
    }
  }

  /**
   * As written, with neither an organisation object nor a null contact the
   * owner falls back to the network name, then the ASN description, then
   * "Unknown".
   */
  lemma NoOrgNoNullFallsBack(rec: RdapRecord)
    requires !HasOrg(rec.objects) && !NullBefore(rec.objects, |rec.objects|)
    ensures OwnerAsWritten(Some(rec)) == Fallback(rec)
  {
    ScanAsWrittenCharacterized(rec.objects);
  }

  /**
   * The discrepancy on a concrete answer: an entity without contact card
   * listed before the organisation hides both the organisation's name and
   * the network name.
   */
  lemma NullContactCounterexample()
    ensures var rec := RdapRecord(
              [RdapObject(NullContact), RdapObject(Contact(Some("org"), Some("ACME")))],
              Some("NET-ACME"), None);
            && OwnerAsWritten(Some(rec)) == Unknown
            && Owner(Some(rec)) == "ACME"
  {
    var objects := [RdapObject(NullContact), RdapObject(Contact(Some("org"), Some("ACME")))];
    NullContactAbortsScan(objects, 0);
    assert IsFirstOrg(objects, 1);
    OwnerPrecedence(RdapRecord(objects, Some("NET-ACME"), None));
  }
}
