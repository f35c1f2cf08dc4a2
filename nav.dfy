/**
  `initIndexNav` (auth.js:137-198): the navigation bar's right-hand region,
  rebuilt from the session once per page load.
 */
module Nav {
  import opened Base
  import opened Session
  import JsString

  /**
    One element of the navigation region: a link, the student's action
    button (which goes to `target`), the logout button (wired to `logout`),
    or the avatar (showing `initial`, styled by the user's role, titled with
    the login, and opening that user's profile when clicked).
   */
  datatype NavItem =
    | Link(href: string, text: string)
    | ActionButton(text: string, target: string)
    | LogoutButton(text: string)
    | Avatar(initial: string, user: User)

  const TeacherRole := "teacher"
  const StudentRole := "student"

  const CreateLink := Link("teacher.html", "Создать задание")
  const DashboardLink := Link("teacher_dashboard.html", "Кабинет")
  const StudentAction := ActionButton("Перейти к заданиям", "student.html")
  const Logout := LogoutButton("Выйти")

  /** The avatar letter: the upper-cased first character of the login, or "?" for an empty login. */
  function Initial(login: string): (r: string)
    ensures login == [] ==> r == "?"
    ensures login != [] ==> r == JsString.UpperCase(login[0])
    ensures forall i :: 0 <= i < |r| ==> JsString.UpperCase(r[i]) == [r[i]]
  {
    if |login| > 0 then
      JsString.UpperCaseStable(login[0]);
      JsString.UpperCase(login[0])
    else
      "?"
  }

  /**
    The role label of the navigation bar: the known roles' names, or the
    role itself for any other role. (The source computes it but does not
    display it.)
   */
  function RoleLabel(role: string): (name: string)
    ensures role == TeacherRole ==> name == "Учитель"
    ensures role == StudentRole ==> name == "Ученик"
    ensures name == role <==> role != TeacherRole && role != StudentRole
  {
    if role == TeacherRole then "Учитель"
    else if role == StudentRole then "Ученик"
    else role
  }

  /**
    The items a signed-in user gets, in order: a teacher two links, any
    other role the action button; then for everyone the logout button and
    the avatar.
   */
  function NavItems(user: User): (items: seq<NavItem>)
    ensures |items| == (if user.role == TeacherRole then 4 else 3)
    ensures items[|items| - 2] == Logout && items[|items| - 1] == Avatar(Initial(user.login), user)
    ensures forall i :: 0 <= i < |items| - 2 ==> (items[i].Link? <==> user.role == TeacherRole)
    ensures user.role == TeacherRole ==> items[..2] == [CreateLink, DashboardLink]
    ensures user.role != TeacherRole ==> items[0] == StudentAction
  {
    var avatar := Avatar(Initial(user.login), user);
    if user.role == TeacherRole then [CreateLink, DashboardLink, Logout, avatar]
    else [StudentAction, Logout, avatar]
  }

  /** The `.nav-right` element: its children, in document order. */
  class NavRegion {
    var children: seq<NavItem>

    constructor (initial: seq<NavItem>)
      ensures children == initial
    {
      children := initial;
    }

    /** `navRight.innerHTML = ''`. */
    method Clear()
      modifies this
      ensures children == []
    {
      children := [];
    }

    /** `navRight.appendChild(item)`. */
    method Append(item: NavItem)
      modifies this
      ensures children == old(children) + [item]
    {
      children := children + [item];
    }
  }

  /**
    `initIndexNav`: without the region nothing happens; without a session the
    region keeps its default markup; otherwise it is cleared and filled with
    the user's items.
   */
  method InitIndexNav(store: SessionStore, nav: NavRegion?)
    modifies nav
    ensures nav != null && store.CurrentUser().None? ==> nav.children == old(nav.children)
    ensures nav != null && store.CurrentUser().Some? ==> nav.children == NavItems(store.CurrentUser().value)
  {
    if nav == null {
      return;
    }
    var session := store.CurrentUser();
    if session.None? {
      return;
    }
    var user := session.value;
    nav.Clear();
    var avatar := Avatar(Initial(user.login), user);
    if user.role == TeacherRole {
      nav.Append(CreateLink);
      nav.Append(DashboardLink);
      nav.Append(Logout);
      nav.Append(avatar);
      return;
    }
    nav.Append(StudentAction);
    nav.Append(Logout);
    nav.Append(avatar);
  }
}
