/** The admins routes: the admin table is global, so any authenticated admin
    may read or change any admin; creating the first admin needs no caller. */
module Admins {
  import opened Http
  import opened Entities
  import opened Store
  import Dependencies

  /** The response schema: the password hash is never returned. */
  datatype AdminView = AdminView(id: int, email: string, fullName: string)

  const EmailExists: string := "Admin with this email already exists"
  const CredentialsRequired: string := "Admin credentials required"
  const OwnsDepartments: string := "Cannot delete admin with assigned departments"

  function View(id: int, admin: Admin): AdminView {
    AdminView(id, admin.email, admin.fullName)
  }

  /** `get_admin`: 404 with the same text the resolver uses for a missing admin. */
  function GetAdmin(t: Tables, id: int): (r: Result<AdminView>)
    ensures r.Ok? <==> id in t.admins
    ensures r.Ok? ==> r.value.id == id && r.value.email == t.admins[id].email && r.value.fullName == t.admins[id].fullName
    ensures r.Err? ==> r.error == NotFound(Dependencies.AdminNotFound)
  {
    if id in t.admins then Ok(View(id, t.admins[id])) else Err(NotFound(Dependencies.AdminNotFound))
  }

  /** `list_admins`: every admin, whoever asks. */
  function ListAdmins(t: Tables): (r: map<int, AdminView>)
    ensures forall id :: id in r <==> GetAdmin(t, id).Ok?
    ensures forall id :: id in r ==> GetAdmin(t, id).value == r[id]
  {
    map id | id in t.admins :: View(id, t.admins[id])
  }

  predicate EmailTaken(t: Tables, email: string) {
    exists a :: a in t.admins && t.admins[a].email == email
  }

  /** `create_admin`, given what `optional_admin` resolved (None for no bearer
      header). The duplicate email is checked before the caller, so it is
      reported even to an anonymous request; only the very first admin may be
      created anonymously. The stored password is `hash(password)`. */
  method CreateAdmin(db: Database, caller: Option<int>, email: string, fullName: string, password: string,
                     hash: string -> string) returns (r: Result<AdminView>)
    requires db.Valid()
    modifies db
    ensures db.Valid()
    ensures EmailTaken(old(db.Snapshot()), email) ==> r == Err(BadRequest(EmailExists))
    ensures !EmailTaken(old(db.Snapshot()), email) && |old(db.admins)| > 0 && caller.None? ==>
              r == Err(Forbidden(CredentialsRequired))
    ensures r.Ok? <==> !EmailTaken(old(db.Snapshot()), email) && (|old(db.admins)| == 0 || caller.Some?)
    ensures r.Err? ==> db.Snapshot() == old(db.Snapshot())
    ensures r.Ok? ==> r.value.id !in old(db.admins) && r.value == AdminView(r.value.id, email, fullName)
    ensures r.Ok? ==> db.Snapshot() == old(db.Snapshot()).(admins := old(db.admins)[r.value.id := Admin(email, fullName, hash(password))])
  {
    if exists a :: a in db.admins && db.admins[a].email == email {
      return Err(BadRequest(EmailExists));
    }
    if |db.admins| > 0 && caller.None? {
      return Err(Forbidden(CredentialsRequired));
    }
    var id := db.next.admin;
    db.admins := db.admins[id := Admin(email, fullName, hash(password))];
    db.next := db.next.(admin := id + 1);
    r := Ok(View(id, db.admins[id]));
  }

  /** The fields `update_admin` assigns: full_name when given and not null,
      the hash when a non-empty password is given; the email never. */
  function Patch(admin: Admin, fullName: Option<string>, password: Option<string>, hash: string -> string): (b: Admin)
    ensures b.email == admin.email
    ensures fullName.None? ==> b.fullName == admin.fullName
    ensures fullName.Some? ==> b.fullName == fullName.value
    ensures (password.None? || password.value == "") ==> b.passwordHash == admin.passwordHash
    ensures password.Some? && password.value != "" ==> b.passwordHash == hash(password.value)
  {
    Admin(admin.email,
          if fullName.Some? then fullName.value else admin.fullName,
          if password.Some? && password.value != "" then hash(password.value) else admin.passwordHash)
  }

  /** `update_admin`: an unset or null field, like an empty password, keeps its value. */
  method UpdateAdmin(db: Database, id: int, fullName: Option<string>, password: Option<string>,
                     hash: string -> string) returns (r: Result<AdminView>)
    requires db.Valid()
    modifies db
    ensures db.Valid()
    ensures r.Ok? <==> id in old(db.admins)
    ensures r.Err? ==> r.error == NotFound(Dependencies.AdminNotFound) && db.Snapshot() == old(db.Snapshot())
    ensures r.Ok? ==> db.Snapshot() == old(db.Snapshot()).(admins := old(db.admins)[id := Patch(old(db.admins)[id], fullName, password, hash)])
    ensures r.Ok? ==> r.value == View(id, db.admins[id])
  {
    if id !in db.admins {
      return Err(NotFound(Dependencies.AdminNotFound));
    }
    db.admins := db.admins[id := Patch(db.admins[id], fullName, password, hash)];
    r := Ok(View(id, db.admins[id]));
  }

  /** `delete_admin`: an admin that still owns a department stays. */
  method DeleteAdmin(db: Database, id: int) returns (r: Result<()>)
    requires db.Valid()
    modifies db
    ensures db.Valid()
    ensures id !in old(db.admins) ==> r == Err(NotFound(Dependencies.AdminNotFound))
    ensures id in old(db.admins) && DepartmentsOf(old(db.Snapshot()), id) != {} ==> r == Err(BadRequest(OwnsDepartments))
    ensures r.Ok? <==> id in old(db.admins) && DepartmentsOf(old(db.Snapshot()), id) == {}
    ensures r.Err? ==> db.Snapshot() == old(db.Snapshot())
    ensures r.Ok? ==> db.Snapshot() == old(db.Snapshot()).(admins := old(db.admins) - {id})
  {
    if id !in db.admins {
      return Err(NotFound(Dependencies.AdminNotFound));
    }
    if exists d :: d in db.departments && db.departments[d].adminId == id {
      ghost var d :| d in db.departments && db.departments[d].adminId == id;
      assert d in DepartmentsOf(db.Snapshot(), id);
      return Err(BadRequest(OwnsDepartments));
    }
    db.admins := db.admins - {id};
    r := Ok(());
  }
}
