/** The command table of `work`: which provider method a parsed request
    reaches, gated by whether the provider implements the optional
    user-management interface. */
module Dispatch {
  import opened Wrappers
  import opened Octets
  import opened Parser

  /** The two capability sets: the abstract methods every provider has, and
      the optional `EjabberdExternalAuth_UserManagement` interface. */
  datatype Capability = Core | UserManagement

  /** One invocation of a provider method, with the arguments it receives. */
  datatype Call =
    | Authenticate(user: Bytes, server: Bytes, password: Option<Bytes>)
    | Exists(user: Bytes, server: Bytes)
    | SetPassword(user: Bytes, server: Bytes, password: Option<Bytes>)
    | Register(user: Bytes, server: Bytes, password: Option<Bytes>)
    | Remove(user: Bytes, server: Bytes)
    | RemoveSafely(user: Bytes, server: Bytes, password: Option<Bytes>)
  {
    /** The capability that declares the method. */
    function Needs(): Capability
    {
      if Authenticate? || Exists? then Core else UserManagement
    }

    /** Whether the method is handed the password. */
    predicate TakesPassword()
    {
      !Exists? && !Remove?
    }
  }

  const AUTH: Bytes := Ascii("auth")
  const ISUSER: Bytes := Ascii("isuser")
  const SETPASS: Bytes := Ascii("setpass")
  const TRYREGISTER: Bytes := Ascii("tryregister")
  const REMOVEUSER: Bytes := Ascii("removeuser")
  const REMOVEUSER3: Bytes := Ascii("removeuser3")

  /** The commands of the first `switch`, always recognised. */
  const CORE_COMMANDS: set<Bytes> := {AUTH, ISUSER}

  /** The commands of the second `switch`, recognised only for a provider
      with the user-management capability. */
  const MANAGEMENT_COMMANDS: set<Bytes> := {SETPASS, TRYREGISTER, REMOVEUSER, REMOVEUSER3}

  function Recognised(userManagement: bool): set<Bytes>
  {
    if userManagement then CORE_COMMANDS + MANAGEMENT_COMMANDS else CORE_COMMANDS
  }

  /** The command that names a method on the wire. */
  function CommandName(c: Call): Bytes
  {
    match c
    case Authenticate(_, _, _) => AUTH
    case Exists(_, _) => ISUSER
    case SetPassword(_, _, _) => SETPASS
    case Register(_, _, _) => TRYREGISTER
    case Remove(_, _) => REMOVEUSER
    case RemoveSafely(_, _, _) => REMOVEUSER3
  }

  /** The first `switch`. */
  function CoreCall(req: Request): Option<Call>
  {
    if req.command == AUTH then Some(Authenticate(req.user, req.server, req.password))
    else if req.command == ISUSER then Some(Exists(req.user, req.server))
    else None
  }

  /** The second `switch`, reached only for a user-management provider. */
  function ManagementCall(req: Request): Option<Call>
  {
    if req.command == SETPASS then Some(SetPassword(req.user, req.server, req.password))
    else if req.command == TRYREGISTER then Some(Register(req.user, req.server, req.password))
    else if req.command == REMOVEUSER then Some(Remove(req.user, req.server))
    else if req.command == REMOVEUSER3 then Some(RemoveSafely(req.user, req.server, req.password))
    else None
  }

  /** The provider method a request reaches, if any; `None` is the default
      `$response = false`. A recognised command reaches the method it
      names with the request's user and server, and its password when the
      method takes one; a user-management method is reached only when the
      provider has that capability. */
  function Route(req: Request, userManagement: bool): (c: Option<Call>)
    ensures c.None? <==> req.command !in Recognised(userManagement)
    ensures c.Some? ==> CommandName(c.value) == req.command
    ensures c.Some? ==> c.value.user == req.user && c.value.server == req.server
    ensures c.Some? && c.value.TakesPassword() ==> c.value.password == req.password
    ensures c.Some? && c.value.Needs() == UserManagement ==> userManagement
  {
    var core := CoreCall(req);
    if core.Some? then core
    else if userManagement then ManagementCall(req)
    else None
  }

  /** The request the host sends to have a method called. */
  function RequestFor(c: Call): Request
  {
    Request(CommandName(c), c.user, c.server, if c.TakesPassword() then c.password else None)
  }

  /** The command names are pairwise distinct. */
  lemma CommandNamesDistinct(c: Call, d: Call)
    requires CommandName(c) == CommandName(d)
    ensures c.Needs() == d.Needs()
    ensures c.Authenticate? == d.Authenticate? && c.Exists? == d.Exists?
    ensures c.SetPassword? == d.SetPassword? && c.Register? == d.Register?
    ensures c.Remove? == d.Remove? && c.RemoveSafely? == d.RemoveSafely?
  {
    assert TRYREGISTER[0] != REMOVEUSER3[0];
  }

  /** A request for a method reaches exactly that method when the provider
      has the method's capability, and no method at all otherwise. */
  lemma RouteRequestFor(c: Call, userManagement: bool)
    ensures Route(RequestFor(c), userManagement)
            == if userManagement || c.Needs() == Core then Some(c) else None
  {
    var r := Route(RequestFor(c), userManagement);
    if r.Some? {
      CommandNamesDistinct(c, r.value);
    } else {
      assert TRYREGISTER[0] != REMOVEUSER3[0];
    }
  }
}
