// internal/repository/implementation: one object per table, one method per SQL statement
// (per pair of statements for passwordResetRepository.Create).

module Repositories {
  import opened Options
  import opened AuthTypes
  import opened AuthSpec

  class UserRepository {
    const lib: Library
    var rows: UserTable

    ghost predicate Valid()
      reads this
    {
      UniqueEmails(rows)
    }

    constructor (lib: Library)
      ensures Valid() && rows == map[] && this.lib == lib
    {
      this.lib := lib;
      rows := map[];
    }

    method Create(now: Time, newId: Id, email: string, name: string, passwordHash: string,
                  role: UserRole) returns (created: Option<(Id, User)>)
      requires Valid()
      modifies this
      ensures Valid()
      ensures created.Some? <==> CanInsert(old(rows), newId, lib.Normal(email), role)
      ensures created.None? ==> rows == old(rows)
      ensures created.Some? ==>
                var u := NewUser(lib.Normal(email), lib.trim(name), passwordHash, role, now);
                created.value == (newId, u) && rows == old(rows)[newId := u]
    {
      var key := lib.lower(lib.trim(email));
      if newId in rows || role.Other? || exists other :: other in rows && HasEmail(rows, key, other) {
        return None;
      }
      var u := NewUser(key, lib.trim(name), passwordHash, role, now);
      rows := rows[newId := u];
      return Some((newId, u));
    }

    method FindByID(id: Id) returns (u: Option<User>)
      ensures u == if id in rows then Some(rows[id]) else None
    {
      if id in rows { return Some(rows[id]); }
      return None;
    }

    method FindByEmail(email: string) returns (found: Option<(Id, User)>)
      requires Valid()
      ensures var subject := ByEmail(rows, lib.Normal(email));
              found == if subject.Some? then Some((subject.value, rows[subject.value])) else None
    {
      var key := lib.lower(lib.trim(email));
      if exists id :: id in rows && HasEmail(rows, key, id) {
        var id :| id in rows && HasEmail(rows, key, id);
        return Some((id, rows[id]));
      }
      return None;
    }

    method Update(now: Time, id: Id, name: Option<string>, role: Option<UserRole>) returns (r: Reply)
      requires Valid()
      modifies this
      ensures Valid()
      ensures var found := id in old(rows);
              if name.None? && role.None? then rows == old(rows) && r == if found
                then Updated(rows[id]) else Fail(NotFound)
              else if role.Some? && role.value.Other? then rows == old(rows) && r == Fail(Internal)
              else if !found then rows == old(rows) && r == Fail(NotFound)
              else rows == old(rows)[id := Patched(lib, old(rows)[id], name, role, now)] && r == Updated(rows[id])
    {
      if name.None? && role.None? {
        var u := FindByID(id);
        return if u.Some? then Updated(u.value) else Fail(NotFound);
      }
      if role.Some? && role.value.Other? {
        return Fail(Internal);
      }
      if id !in rows {
        return Fail(NotFound);
      }
      var u := rows[id];
      if name.Some? { u := u.(name := lib.trim(name.value)); }
      if role.Some? { u := u.(role := role.value); }
      u := u.(updatedAt := now);
      rows := rows[id := u];
      return Updated(u);
    }

    method UpdatePassword(now: Time, id: Id, hash: string) returns (ok: bool)
      requires Valid()
      modifies this
      ensures Valid()
      ensures ok == (id in old(rows))
      ensures rows == if ok then old(rows)[id := old(rows)[id].(passwordHash := hash, updatedAt := now)] else old(rows)
    {
      ok := id in rows;
      if ok { rows := rows[id := rows[id].(passwordHash := hash, updatedAt := now)]; }
    }

    /** The 32-bit counter cannot pass INT32_MAX: then the statement fails and the row stays. */
    method IncrFailedAttempts(now: Time, id: Id)
      requires Valid()
      modifies this
      ensures Valid()
      ensures rows == if id in old(rows) && old(rows)[id].failedAttempts < INT32_MAX
        then var u := old(rows)[id]; old(rows)[id := u.(failedAttempts := u.failedAttempts + 1, updatedAt := now)]
        else old(rows)
    {
      if id in rows && rows[id].failedAttempts < INT32_MAX {
        rows := rows[id := rows[id].(failedAttempts := rows[id].failedAttempts + 1, updatedAt := now)];
      }
    }

    method LockUntil(now: Time, id: Id, until: Time)
      requires Valid()
      modifies this
      ensures Valid()
      ensures rows == if id in old(rows)
        then old(rows)[id := old(rows)[id].(lockedUntil := Some(until), updatedAt := now)] else old(rows)
    {
      if id in rows { rows := rows[id := rows[id].(lockedUntil := Some(until), updatedAt := now)]; }
    }

    method ClearLock(now: Time, id: Id)
      requires Valid()
      modifies this
      ensures Valid()
      ensures rows == if id in old(rows) then old(rows)[id := Unlocked(old(rows)[id], now)] else old(rows)
    {
      if id in rows { rows := rows[id := rows[id].(failedAttempts := 0, lockedUntil := None, updatedAt := now)]; }
    }

    method SetTotp(now: Time, id: Id, secret: string, enabled: bool)
      requires Valid()
      modifies this
      ensures Valid()
      ensures rows == if id in old(rows)
        then var u := old(rows)[id];
             old(rows)[id := u.(totpSecret := Some(secret), totpEnabled := enabled, updatedAt := now)]
        else old(rows)
    {
      if id in rows {
        rows := rows[id := rows[id].(totpSecret := Some(secret), totpEnabled := enabled, updatedAt := now)];
      }
    }

    method Deactivate(now: Time, id: Id) returns (ok: bool)
      requires Valid()
      modifies this
      ensures Valid()
      ensures ok == (id in old(rows))
      ensures rows == if ok then old(rows)[id := old(rows)[id].(isActive := false, updatedAt := now)] else old(rows)
    {
      ok := id in rows;
      if ok { rows := rows[id := rows[id].(isActive := false, updatedAt := now)]; }
    }

    method CountSuperAdmins() returns (count: nat)
      ensures count == |ActiveSuperAdmins(rows)|
    {
      count := |set id | id in rows && rows[id].role == SuperAdmin && rows[id].isActive|;
      assert (set id | id in rows && rows[id].role == SuperAdmin && rows[id].isActive) == ActiveSuperAdmins(rows);
    }
  }

  class PasswordResetRepository {
    var rows: ResetTable

    ghost predicate Valid()
      reads this
    {
      AtMostOneResetPerUser(rows)
    }

    constructor ()
      ensures Valid() && rows == map[]
    {
      rows := map[];
    }

    /** DELETE the user's rows, then INSERT: a failing INSERT leaves them deleted. */
    method Create(now: Time, newId: Id, userId: Id, otpHash: string, expiresAt: Time) returns (ok: bool)
      requires Valid()
      modifies this
      ensures Valid()
      ensures ok == (newId !in WithoutResetsOf(old(rows), userId))
      ensures rows == if ok
        then WithoutResetsOf(old(rows), userId)[newId := PasswordReset(userId, otpHash, expiresAt, None, now)]
                      else WithoutResetsOf(old(rows), userId)
    {
      rows := map id | id in rows && rows[id].userId != userId :: rows[id];
      ok := newId !in rows;
      if ok { rows := rows[newId := PasswordReset(userId, otpHash, expiresAt, None, now)]; }
    }

    method FindByUserID(userId: Id) returns (found: Option<(Id, PasswordReset)>)
      requires Valid()
      ensures var latest := LatestPending(rows, userId);
              found == if latest.Some? then Some((latest.value, rows[latest.value])) else None
    {
      if exists id :: id in rows && IsPending(rows, userId, id) {
        var id :| id in rows && IsPending(rows, userId, id);
        assert IsLatestPending(rows, userId, id);
        return Some((id, rows[id]));
      }
      return None;
    }

    /** Compare-and-set on used_at; false is ErrNotFound. */
    method Consume(now: Time, id: Id) returns (ok: bool)
      requires Valid()
      modifies this
      ensures Valid()
      ensures ok == (id in old(rows) && old(rows)[id].usedAt.None?)
      ensures rows == if ok then old(rows)[id := old(rows)[id].(usedAt := Some(now))] else old(rows)
    {
      ok := id in rows && rows[id].usedAt.None?;
      if ok { rows := rows[id := rows[id].(usedAt := Some(now))]; }
    }

    method DeleteExpired(now: Time)
      requires Valid()
      modifies this
      ensures Valid()
      ensures rows == WithoutExpired(old(rows), now)
    {
      rows := map id | id in rows && !(rows[id].expiresAt < now) :: rows[id];
    }
  }
}
