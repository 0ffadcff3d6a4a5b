// One customer per phone: the lookups and writes of
// src/database/repositories/customer.repository.ts, the phone change of
// src/modules/customers/customers.service.ts and the sign-up of `verifyOtp` in
// src/modules/auth/auth.service.ts. Each method is one atomic step.
module Customers {
  import opened Wrappers
  import opened Phone

  datatype Customer = Customer(phone: string, deleted: bool, isActive: bool, isVerified: bool,
                               deletionRequestedAt: Option<int>)

  type CustomerTable = map<nat, Customer>

  predicate Live(t: CustomerTable, id: nat) {
    id in t && !t[id].deleted
  }

  function NormalPhone(t: CustomerTable, id: nat): string
    requires id in t
  {
    NormalizeThaiPhoneToLocal(t[id].phone)
  }

  /** Stored phones are well formed, and no two customers that are not deleted share a number. */
  ghost predicate OneCustomerPerPhone(t: CustomerTable) {
    && (forall id :: Live(t, id) ==> Stored(t[id].phone))
    && (forall i, j :: Live(t, i) && Live(t, j) && NormalPhone(t, i) == NormalPhone(t, j) ==> i == j)
  }

  predicate Found(t: CustomerTable, value: string, id: nat) {
    Live(t, id) && t[id].phone in GuestPhoneLookupValues(value)
  }

  /** When a lookup finds nobody, nobody has the number. */
  lemma {:induction false} NobodyHasPhone(t: CustomerTable, value: string, id: nat)
    requires OneCustomerPerPhone(t) && Live(t, id) && NormalizeThaiPhoneToLocal(value) != ""
    requires forall j :: !Found(t, value, j)
    ensures NormalPhone(t, id) != NormalizeThaiPhoneToLocal(value)
  {
    hide NormalizeThaiPhoneToLocal, GuestPhoneLookupValues;
    assert !Found(t, value, id);
    if NormalPhone(t, id) == NormalizeThaiPhoneToLocal(value) {
      LookupIsComplete(t[id].phone, value);
    }
  }

  /** The empty normal form belongs to the empty phone only. */
  lemma EmptyPhone(phone: string)
    requires Stored(phone) && NormalizeThaiPhoneToLocal(phone) == ""
    ensures phone == ""
  {
  }

  /** Writing a normalised phone nobody else has keeps one customer per phone. */
  lemma {:induction false} WriteKeepsOnePerPhone(t: CustomerTable, id: nat, c: Customer)
    requires OneCustomerPerPhone(t)
    requires c.deleted || (NormalizeThaiPhoneToLocal(c.phone) == c.phone
                           && forall j :: Live(t, j) && j != id ==> NormalPhone(t, j) != c.phone)
    ensures OneCustomerPerPhone(t[id := c])
  {
    hide NormalizeThaiPhoneToLocal;
    var after := t[id := c];
    forall j | Live(after, j) && j != id ensures Live(t, j) && after[j] == t[j] {
    }
  }

  /** A live row other than `id` with this number holds it in exactly this form. */
  ghost predicate OnlyExactClash(t: CustomerTable, id: nat, phone: string) {
    forall j :: Live(t, j) && j != id && NormalPhone(t, j) == phone ==> t[j].phone == phone
  }

  /** A live row other than `id` stores this very text, so the unique index refuses it. */
  ghost predicate TextTaken(t: CustomerTable, id: nat, phone: string) {
    exists j :: Live(t, j) && j != id && t[j].phone == phone
  }

  /** A deletion was asked for and its retention period is over. */
  predicate DeletionDue(c: Customer, now: int, retentionMs: int) {
    !c.isActive && c.deletionRequestedAt.Some? && now > c.deletionRequestedAt.value + retentionMs
  }

  datatype PhoneChange = Changed | Unchanged | PhoneAlreadyExists | StorageError

  class CustomerRepository {
    var rows: CustomerTable

    ghost predicate Valid()
      reads this
    {
      OneCustomerPerPhone(rows)
    }

    constructor (rows: CustomerTable)
      requires OneCustomerPerPhone(rows)
      ensures Valid() && this.rows == rows
    {
      this.rows := rows;
    }

    /** One of the rows the lookup matches, whichever the database returns. */
    method FindActiveByPhone(phone: string) returns (r: Option<nat>)
      ensures r.Some? ==> Found(rows, NormalizeThaiPhoneToLocal(phone), r.value)
      ensures r.None? ==> forall id :: !Found(rows, NormalizeThaiPhoneToLocal(phone), id)
    {
      var lookup := GuestPhoneLookupValues(NormalizeThaiPhoneToLocal(phone));
      if id :| id in rows && !rows[id].deleted && rows[id].phone in lookup {
        return Some(id);
      }
      return None;
    }

    method FindOtherActiveByPhone(phone: string, excludeCustomerId: nat) returns (r: Option<nat>)
      ensures r.Some? ==> r.value != excludeCustomerId && Found(rows, NormalizeThaiPhoneToLocal(phone), r.value)
      ensures r.None? ==> (forall id :: !Found(rows, NormalizeThaiPhoneToLocal(phone), id))
                          || Found(rows, NormalizeThaiPhoneToLocal(phone), excludeCustomerId)
    {
      var existing := FindActiveByPhone(phone);
      if existing.None? || existing.value == excludeCustomerId {
        return None;
      }
      return existing;
    }

    /** `save`: the unique index rejects a phone that another live row has, letter for letter. */
    method Save(id: nat, c: Customer) returns (ok: bool)
      modifies this
      ensures ok <==> c.deleted || !TextTaken(old(rows), id, c.phone)
      ensures rows == if ok then old(rows)[id := c] else old(rows)
    {
      if !c.deleted && exists j :: j in rows && !rows[j].deleted && j != id && rows[j].phone == c.phone {
        return false;
      }
      rows := rows[id := c];
      return true;
    }

    /** Updates the customer who has the phone, or inserts one with the normalised phone. */
    method CreateOrUpdate(phone: string, isVerified: bool, newId: nat) returns (r: Option<nat>)
      requires Valid() && newId !in rows
      modifies this
      ensures Valid()
      ensures r.Some? ==> Live(rows, r.value)
      ensures r == Some(newId)
              ==> rows == old(rows)[newId := Customer(NormalizeThaiPhoneToLocal(phone), false, true, isVerified, None)]
      ensures r.Some? && r.value != newId ==>
                Found(old(rows), NormalizeThaiPhoneToLocal(phone), r.value)
                && rows == old(rows)[r.value := old(rows)[r.value].(isVerified := isVerified)]
      ensures r.None? ==> rows == old(rows) && TextTaken(rows, newId, NormalizeThaiPhoneToLocal(phone))
    {
      hide NormalizeThaiPhoneToLocal, GuestPhoneLookupValues, OneCustomerPerPhone;
      var normalizedPhone := NormalizeThaiPhoneToLocal(phone);
      NormalizeIsIdempotent(phone);
      var existing := FindActiveByPhone(normalizedPhone);
      if existing.Some? {
        UpdateKeepsOnePerPhone(rows, existing.value, rows[existing.value].(isVerified := isVerified));
        rows := rows[existing.value := rows[existing.value].(isVerified := isVerified)];
        return existing;
      }
      NobodyFound(rows, normalizedPhone, newId);
      var ok := Insert(normalizedPhone, isVerified, newId);
      return if ok then Some(newId) else None;
    }

    method Insert(phone: string, isVerified: bool, newId: nat) returns (ok: bool)
      requires Valid() && newId !in rows
      requires NormalizeThaiPhoneToLocal(phone) == phone && OnlyExactClash(rows, newId, phone)
      modifies this
      ensures Valid()
      ensures !ok <==> TextTaken(old(rows), newId, phone)
      ensures rows == if ok then old(rows)[newId := Customer(phone, false, true, isVerified, None)] else old(rows)
    {
      hide NormalizeThaiPhoneToLocal, GuestPhoneLookupValues, OneCustomerPerPhone;
      ghost var before := rows;
      var c := Customer(phone, false, true, isVerified, None);
      ok := Save(newId, c);
      if ok {
        WriteKeepsOnePerPhone(before, newId, c);
      }
    }

    /**
     * The customer step of a verified OTP: an expired pending deletion is carried out
     * and a fresh customer signed up; a suspended or still pending one is left alone.
     */
    method SignUp(phone: string, now: int, retentionMs: int, newId: nat) returns (r: Option<nat>)
      requires Valid() && newId !in rows
      modifies this
      ensures Valid()
      ensures r == Some(newId) ==>
                var signedUp := Customer(NormalizeThaiPhoneToLocal(phone), false, true, true, None);
                || (rows == old(rows)[newId := signedUp]
                    && forall j :: !Found(old(rows), NormalizeThaiPhoneToLocal(phone), j))
                || (exists id :: && Found(old(rows), NormalizeThaiPhoneToLocal(phone), id)
                                 && !old(rows)[id].isActive && old(rows)[id].deletionRequestedAt.Some?
                                 && now > old(rows)[id].deletionRequestedAt.value + retentionMs
                                 && rows == old(rows)[id := old(rows)[id].(deleted := true)][newId := signedUp])
      ensures r.Some? && r.value != newId ==>
                Found(old(rows), NormalizeThaiPhoneToLocal(phone), r.value) && old(rows)[r.value].isActive
                && rows == old(rows)[r.value := old(rows)[r.value].(isVerified := true)]
      ensures r.None? && rows == old(rows) ==>
                || TextTaken(rows, newId, NormalizeThaiPhoneToLocal(phone))
                || exists id ::
                     && Found(rows, NormalizeThaiPhoneToLocal(phone), id) && !rows[id].isActive
                     && (rows[id].deletionRequestedAt.None?
                         || now <= rows[id].deletionRequestedAt.value + retentionMs)
      ensures r.None? && rows != old(rows) ==>
                && TextTaken(rows, newId, NormalizeThaiPhoneToLocal(phone))
                && exists id :: && Found(old(rows), NormalizeThaiPhoneToLocal(phone), id)
                                && !old(rows)[id].isActive && old(rows)[id].deletionRequestedAt.Some?
                                && now > old(rows)[id].deletionRequestedAt.value + retentionMs
                                && rows == old(rows)[id := old(rows)[id].(deleted := true)]
    {
      hide NormalizeThaiPhoneToLocal, GuestPhoneLookupValues, OneCustomerPerPhone;
      var normalizedPhone := NormalizeThaiPhoneToLocal(phone);
      NormalizeIsIdempotent(phone);
      var found := FindActiveByPhone(normalizedPhone);
      if found.Some? && !rows[found.value].isActive {
        if !DeletionDue(rows[found.value], now, retentionMs) {
          return None;
        }
        var deleted := rows[found.value].(deleted := true);
        WriteKeepsOnePerPhone(rows, found.value, deleted);
        SomebodyFound(rows, normalizedPhone, found.value);
        rows := rows[found.value := deleted];
        var inserted := Insert(normalizedPhone, true, newId);
        return if inserted then Some(newId) else None;
      }
      if found.None? {
        NobodyFound(rows, normalizedPhone, newId);
        var ok := Insert(normalizedPhone, true, newId);
        return if ok then Some(newId) else None;
      }
      UpdateKeepsOnePerPhone(rows, found.value, rows[found.value].(isVerified := true));
      rows := rows[found.value := rows[found.value].(isVerified := true)];
      return found;
    }

    /**
     * The phone part of an admin edit. A phone with the same normal form is left as
     * stored; a new one is refused when the lookup finds somebody else.
     */
    method UpdatePhoneAsAdmin(id: nat, phone: string) returns (r: PhoneChange)
      requires Valid() && Live(rows, id)
      modifies this
      ensures Valid()
      ensures r.Unchanged? <==> NormalizeThaiPhoneToLocal(phone) == NormalPhone(old(rows), id)
      ensures r.Changed?
              ==> rows == old(rows)[id := old(rows)[id].(phone := NormalizeThaiPhoneToLocal(phone),
                                                         isVerified := false)]
      ensures !r.Changed? ==> rows == old(rows)
      ensures r.StorageError? ==> TextTaken(rows, id, NormalizeThaiPhoneToLocal(phone))
      ensures r.PhoneAlreadyExists?
              ==> exists other :: other != id && Found(old(rows), NormalizeThaiPhoneToLocal(phone), other)
    {
      hide NormalizeThaiPhoneToLocal, GuestPhoneLookupValues, OneCustomerPerPhone;
      var normalizedPhone := NormalizeThaiPhoneToLocal(phone);
      NormalizeIsIdempotent(phone);
      if normalizedPhone == NormalizeThaiPhoneToLocal(rows[id].phone) {
        return Unchanged;
      }
      var existing := FindOtherActiveByPhone(normalizedPhone, id);
      if existing.Some? {
        return PhoneAlreadyExists;
      }
      if Found(rows, normalizedPhone, id) {
        SomebodyFound(rows, normalizedPhone, id);
      } else {
        NobodyFound(rows, normalizedPhone, id);
      }
      ghost var before := rows;
      var next := rows[id].(phone := normalizedPhone, isVerified := false);
      var ok := Save(id, next);
      if !ok {
        return StorageError;
      }
      WriteKeepsOnePerPhone(before, id, next);
      return Changed;
    }
  }

  /** Nobody found: nobody live has the number, unless by the very same text. */
  lemma {:induction false} NobodyFound(t: CustomerTable, phone: string, id: nat)
    requires OneCustomerPerPhone(t) && NormalizeThaiPhoneToLocal(phone) == phone
    requires forall j :: !Found(t, phone, j)
    ensures OnlyExactClash(t, id, phone)
  {
    hide NormalizeThaiPhoneToLocal, GuestPhoneLookupValues;
    forall j | Live(t, j) && j != id && NormalPhone(t, j) == phone ensures t[j].phone == phone {
      if phone == "" {
        EmptyPhone(t[j].phone);
      } else {
        NobodyHasPhone(t, phone, j);
      }
    }
  }

  lemma {:induction false} ClashIsExact(t: CustomerTable, phone: string, x: nat, j: nat)
    requires OneCustomerPerPhone(t) && NormalizeThaiPhoneToLocal(phone) == phone && Found(t, phone, x)
    requires Live(t, j) && j != x && NormalPhone(t, j) == phone
    ensures t[j].phone == phone
  {
    hide NormalizeThaiPhoneToLocal, GuestPhoneLookupValues;
    LookupForms(phone);
    LookupIsComplete(t[j].phone, phone);
  }

  /** One row found: any other row with the number could only hold the very same text. */
  lemma {:induction false} SomebodyFound(t: CustomerTable, phone: string, x: nat)
    requires OneCustomerPerPhone(t) && NormalizeThaiPhoneToLocal(phone) == phone && Found(t, phone, x)
    ensures OnlyExactClash(t, x, phone)
    ensures forall newId, c: Customer :: newId !in t && c.deleted ==> OnlyExactClash(t[x := c], newId, phone)
  {
    hide NormalizeThaiPhoneToLocal, OneCustomerPerPhone;
    forall j | Live(t, j) && j != x && NormalPhone(t, j) == phone ensures t[j].phone == phone {
      ClashIsExact(t, phone, x, j);
    }
  }

  /** A write that leaves the phone and the deletion mark alone changes nothing about phones. */
  lemma {:induction false} UpdateKeepsOnePerPhone(t: CustomerTable, id: nat, c: Customer)
    requires OneCustomerPerPhone(t) && Live(t, id) && c.phone == t[id].phone && !c.deleted
    ensures OneCustomerPerPhone(t[id := c])
  {
    hide NormalizeThaiPhoneToLocal;
    var after := t[id := c];
    assert forall j :: Live(after, j) ==> Live(t, j) && after[j].phone == t[j].phone;
  }
}
