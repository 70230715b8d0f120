/**
 * The mock user dependency: with mocks enabled, a non-empty `X-Mock-User`
 * header stands for a signed-in user whose role is read off the header.
 */
module Deps {
  import opened Base
  import opened PyStr

  datatype Role = Admin | Member

  datatype User = User(id: string, email: string, role: Role)

  const MockUserId := "u1"

  /** `"admin" if "admin" in header else "member"`. */
  function RoleOf(header: string): (r: Role)
    ensures r == Admin <==> exists i :: OccursAt(header, "admin", i)
  {
    if Contains(header, "admin") then Admin else Member
  }

  /** A header counts only when present and non-empty, as Python's truthiness has it. */
  function GetUser(useMocks: bool, header: Option<string>): (r: Option<User>)
    ensures r.Some? <==> useMocks && header.Some? && header.value != []
    ensures r.Some? ==> r.value.id == MockUserId && r.value.email == header.value
  {
    if useMocks && header.Some? && header.value != [] then
      Some(User(MockUserId, header.value, RoleOf(header.value)))
    else None
  }

  /** With mocks off nobody is signed in, whatever the header says. */
  lemma MocksOffNoUser(header: Option<string>)
    ensures GetUser(false, header) == None
  {
  }

  /** A header that names an admin yields an admin; any other yields a member; no third role exists. */
  lemma RoleFromHeader(header: string)
    requires header != []
    ensures GetUser(true, Some(header)).Some?
    ensures GetUser(true, Some(header)).value.role == Admin <==> exists i :: OccursAt(header, "admin", i)
    ensures GetUser(true, Some(header)).value.role == Member <==> !exists i :: OccursAt(header, "admin", i)
  {
  }

}
