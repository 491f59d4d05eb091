/** The access decision of src/middleware.ts: given the `mode` query
    parameter, whether a session exists, the request path and the role the
    `user_roles` table holds for the session's user, the request either passes
    or is redirected. */
module Middleware {
  import opened Types

  datatype Decision = Pass | Redirect(target: string)

  const AdminPrefix: string := "/admin"
  const InterviewerPrefix: string := "/interviewer"
  const LoginPrefix: string := "/login"
  const AdminLogin: string := "/login/admin"
  const InterviewerLogin: string := "/login/interviewer"
  const AdminDashboard: string := "/admin/dashboard"
  const InterviewerDashboard: string := "/interviewer/dashboard"

  /** `searchParams.get('mode') === 'test'` */
  predicate IsTestMode(mode: Option<string>) {
    mode == Some("test")
  }

  predicate IsProtected(pathname: string) {
    AdminPrefix <= pathname || InterviewerPrefix <= pathname
  }

  /** The three prefixes differ in their second character, so a path has at most one of them. */
  lemma PrefixesDisjoint(p: string)
    ensures AdminPrefix <= p ==> !(InterviewerPrefix <= p) && !(LoginPrefix <= p)
    ensures InterviewerPrefix <= p ==> !(LoginPrefix <= p)
  {
    assert AdminPrefix <= p ==> p[1] == 'a';
    assert InterviewerPrefix <= p ==> p[1] == 'i';
    assert LoginPrefix <= p ==> p[1] == 'l';
  }

  /** Reference policy: who may see a page without being redirected. Admin
      pages need a session and the administrator role, interviewer pages a
      session and the interviewer role, login pages are for those without a
      session or without a role, every other page is open; test mode opens
      everything. */
  predicate Allowed(mode: Option<string>, hasSession: bool, pathname: string, role: Option<Role>) {
    || IsTestMode(mode)
    || (if AdminPrefix <= pathname then hasSession && role == Some(Administrator)
        else if InterviewerPrefix <= pathname then hasSession && role == Some(Interviewer)
        else if LoginPrefix <= pathname then !(hasSession && role.Some?)
        else true)
  }

  /** The chain of checks in `middleware` (src/middleware.ts) once the
      session is read. `role` is the answer of the `user_roles` lookup, None
      when it finds no row. */
  function Route(mode: Option<string>, hasSession: bool, pathname: string, role: Option<Role>): (d: Decision)
    ensures d == Pass <==> Allowed(mode, hasSession, pathname, role)
    ensures d.Redirect? ==>
              d.target in {AdminLogin, InterviewerLogin, AdminDashboard, InterviewerDashboard}
    ensures !IsTestMode(mode) && !hasSession && IsProtected(pathname) ==>
              d == Redirect(if AdminPrefix <= pathname then AdminLogin else InterviewerLogin)
    ensures !IsTestMode(mode) && hasSession && role.Some? && LoginPrefix <= pathname ==>
              d == Redirect(if role == Some(Administrator) then AdminDashboard else InterviewerDashboard)
    ensures !IsTestMode(mode) && hasSession && role == Some(Interviewer) && AdminPrefix <= pathname ==>
              d == Redirect(InterviewerDashboard)
    ensures !IsTestMode(mode) && hasSession && role == Some(Administrator) && InterviewerPrefix <= pathname ==>
              d == Redirect(AdminDashboard)
    ensures !IsTestMode(mode) && hasSession && role == None && IsProtected(pathname) ==>
              d == Redirect(AdminLogin)
  {
    PrefixesDisjoint(pathname);
    if IsTestMode(mode) then Pass
    else if !hasSession && IsProtected(pathname) then
      Redirect(if AdminPrefix <= pathname then AdminLogin else InterviewerLogin)
    else if hasSession && LoginPrefix <= pathname && role.Some? then
      Redirect(if role.value == Administrator then AdminDashboard else InterviewerDashboard)
    else if hasSession then
      if role.Some? then
        if AdminPrefix <= pathname && role.value != Administrator then Redirect(InterviewerDashboard)
        else if InterviewerPrefix <= pathname && role.value != Interviewer then Redirect(AdminDashboard)
        else Pass
      else if IsProtected(pathname) then Redirect(AdminLogin)
      else Pass
    else Pass
  }

  /** A redirect never leads to another redirect: the page it names passes
      for the same session and role, so the browser settles after one hop. */
  lemma RedirectSettles(mode: Option<string>, hasSession: bool, pathname: string, role: Option<Role>)
    requires Route(mode, hasSession, pathname, role).Redirect?
    ensures Route(mode, hasSession, Route(mode, hasSession, pathname, role).target, role) == Pass
  {
    var t := Route(mode, hasSession, pathname, role).target;
    PrefixesDisjoint(AdminDashboard);
    PrefixesDisjoint(InterviewerDashboard);
    assert LoginPrefix <= AdminLogin && LoginPrefix <= InterviewerLogin;
    assert AdminPrefix <= AdminDashboard && InterviewerPrefix <= InterviewerDashboard;
    if t == AdminDashboard {
      assert hasSession && role == Some(Administrator);
    } else if t == InterviewerDashboard {
      assert hasSession && role == Some(Interviewer);
    } else {
      assert !(hasSession && role.Some?);
    }
  }
}
