/**
  The submit handlers of the registration and login forms
  (`initRegisterForm`, `initLoginForm`, auth.js:48-135): client-side
  validation, the request body, and what a reply does to the page.
 */
module AuthForms {
  import opened Base
  import opened Session
  import JsString

  /** What the registration form holds when it is submitted; `role` is None when no role is checked. */
  datatype RegisterForm = RegisterForm(login: string, password: string, confirm: string, role: Option<string>)

  /** What the login form holds when it is submitted. */
  datatype LoginForm = LoginForm(login: string, password: string)

  /** The JSON body of a request: `{login, password, role}` to /api/register, `{login, password}` to /api/login. */
  datatype Request =
    | RegisterRequest(login: string, password: string, role: string)
    | LoginRequest(login: string, password: string)

  /** The result of client-side validation: a message and no request, or the request to send. */
  datatype Check = Reject(message: string) | Send(request: Request)

  /**
    What the exchange with the server yields: a parsed reply (its HTTP `ok`
    flag, `data.error` and `data.user`), or a failure of `fetch` or of
    `res.json()`.
   */
  datatype Reply =
    | Answered(ok: bool, error: Option<string>, user: Option<User>)
    | NetworkFailure

  /** What a submission does once validated: show a message, or store the session and go to the landing page. */
  datatype Outcome =
    | ShowMessage(text: string)
    | SignIn(session: Entry, redirect: string)

  /** Which form is submitted; it selects the default error text. */
  datatype Operation = Registration | Login

  const MissingFieldsMessage := "Заполните все поля и выберите роль."
  const MismatchMessage := "Пароли не совпадают."
  const MissingCredentialsMessage := "Введите логин и пароль."
  const RegisterFailedMessage := "Ошибка регистрации"
  const LoginFailedMessage := "Неверный логин или пароль"
  const NetworkMessage := "Ошибка сети. Запустите сервер (npm start)."

  /** Every field is filled in: a non-blank login, both passwords, a non-empty role. */
  predicate RegisterFieldsPresent(form: RegisterForm) {
    && JsString.Trim(form.login) != []
    && form.password != [] && form.confirm != []
    && form.role.Some? && form.role.value != []
  }

  /**
    Registration checks missing fields first, and only then that the two
    passwords agree; the request carries the trimmed login and the password
    and role as entered.
   */
  function ValidateRegister(form: RegisterForm): (c: Check)
    ensures c == Reject(MissingFieldsMessage) <==> !RegisterFieldsPresent(form)
    ensures c == Reject(MismatchMessage) <==> RegisterFieldsPresent(form) && form.password != form.confirm
    ensures c.Send? <==> RegisterFieldsPresent(form) && form.password == form.confirm
    ensures c.Send? ==> c.request == RegisterRequest(JsString.Trim(form.login), form.password, form.role.value)
    ensures c.Send? ==> JsString.Trim(c.request.login) == c.request.login
  {
    var login := JsString.Trim(form.login);
    JsString.TrimIdempotent(form.login);
    var role := if form.role.Some? then form.role.value else [];
    if login == [] || form.password == [] || form.confirm == [] || role == [] then
      Reject(MissingFieldsMessage)
    else if form.password != form.confirm then
      Reject(MismatchMessage)
    else
      Send(RegisterRequest(login, form.password, role))
  }

  /**
    Login needs a login that is not blank and a non-empty password; the login
    is sent trimmed, the password as entered.
   */
  function ValidateLogin(form: LoginForm): (c: Check)
    ensures c.Reject? <==> JsString.AllTrimmable(form.login) || form.password == []
    ensures c.Reject? ==> c.message == MissingCredentialsMessage
    ensures c.Send? ==> c.request == LoginRequest(JsString.Trim(form.login), form.password)
    ensures c.Send? ==> c.request.login != [] && JsString.Trim(c.request.login) == c.request.login
  {
    var login := JsString.Trim(form.login);
    JsString.TrimIdempotent(form.login);
    if login == [] || form.password == [] then
      Reject(MissingCredentialsMessage)
    else
      Send(LoginRequest(login, form.password))
  }

  /** The text shown when the server refuses: its own `error`, or the form's default when it gives none. */
  function FailureText(op: Operation, error: Option<string>): (text: string)
    ensures error.Some? && error.value != [] ==> text == error.value
    ensures error.None? || error.value == [] ==> text == (if op == Registration then RegisterFailedMessage else LoginFailedMessage)
  {
    if error.Some? && error.value != [] then error.value
    else if op == Registration then RegisterFailedMessage
    else LoginFailedMessage
  }

  /**
    What a reply does: a refusal shows the server's error or the default, a
    failed exchange shows the network message, and success stores
    `data.user` and goes to the landing page.
   */
  function HandleReply(op: Operation, reply: Reply): (o: Outcome)
    ensures o.SignIn? <==> reply.Answered? && reply.ok
    ensures o.SignIn? ==> o.session == StoredEntry(reply.user) && o.redirect == LandingPage
    ensures reply == NetworkFailure ==> o == ShowMessage(NetworkMessage)
    ensures reply.Answered? && !reply.ok ==> o == ShowMessage(FailureText(op, reply.error))
  {
    match reply
    case NetworkFailure => ShowMessage(NetworkMessage)
    case Answered(ok, error, user) =>
      if !ok then ShowMessage(FailureText(op, error)) else SignIn(StoredEntry(user), LandingPage)
  }

  /**
    A submit handler, run to completion against the reply the server would
    give: the request it sends (if any), the text it puts in the message
    element (None: untouched), and where it sends the browser (if anywhere).
   */
  method Submit(store: SessionStore, op: Operation, check: Check, reply: Reply)
    returns (sent: Option<Request>, message: Option<string>, redirect: Option<string>)
    modifies store
    ensures check.Reject? ==> sent == None && message == Some(check.message) && redirect == None
    ensures check.Reject? ==> store.items == old(store.items)
    ensures check.Send? ==> sent == Some(check.request)
    ensures check.Send? && HandleReply(op, reply).ShowMessage? ==>
      && message == Some(HandleReply(op, reply).text) && redirect == None
      && store.items == old(store.items)
    ensures check.Send? && HandleReply(op, reply).SignIn? ==>
      && message == Some([]) && redirect == Some(LandingPage)
      && store.items == old(store.items)[CurrentUserKey := HandleReply(op, reply).session]
      && store.CurrentUser() == reply.user
  {
    match check
    case Reject(text) =>
      sent, message, redirect := None, Some(text), None;
    case Send(request) =>
      sent := Some(request);
      match reply
      case NetworkFailure =>
        message, redirect := Some(NetworkMessage), None;
      case Answered(ok, error, user) =>
        if !ok {
          message, redirect := Some(FailureText(op, error)), None;
        } else {
          store.SetCurrentUser(user);
          message := Some([]);
          redirect := Some(LandingPage);
        }
  }

  /** The registration form's submit handler. */
  method SubmitRegister(store: SessionStore, form: RegisterForm, reply: Reply)
    returns (sent: Option<Request>, message: Option<string>, redirect: Option<string>)
    modifies store
    ensures ValidateRegister(form).Reject? ==>
      && sent == None && message == Some(ValidateRegister(form).message) && redirect == None
      && store.items == old(store.items)
    ensures form.password != form.confirm ==> sent == None && redirect == None
    ensures sent.Some? <==> ValidateRegister(form).Send?
    ensures sent.Some? ==> sent.value == RegisterRequest(JsString.Trim(form.login), form.password, form.role.value)
    ensures sent.Some? && !(reply.Answered? && reply.ok) ==>
      && message == Some(HandleReply(Registration, reply).text) && redirect == None
      && store.items == old(store.items)
    ensures sent.Some? && reply.Answered? && reply.ok ==>
      && message == Some([]) && redirect == Some(LandingPage)
      && store.items == old(store.items)[CurrentUserKey := StoredEntry(reply.user)]
    ensures redirect.Some? ==> reply.Answered? && reply.ok && store.CurrentUser() == reply.user && redirect == Some(LandingPage)
    ensures redirect == None ==> store.items == old(store.items)
  {
    sent, message, redirect := Submit(store, Registration, ValidateRegister(form), reply);
  }

  /** The login form's submit handler. */
  method SubmitLogin(store: SessionStore, form: LoginForm, reply: Reply)
    returns (sent: Option<Request>, message: Option<string>, redirect: Option<string>)
    modifies store
    ensures ValidateLogin(form).Reject? ==>
      && sent == None && message == Some(MissingCredentialsMessage) && redirect == None
      && store.items == old(store.items)
    ensures sent.Some? <==> ValidateLogin(form).Send?
    ensures sent.Some? ==> sent.value == LoginRequest(JsString.Trim(form.login), form.password)
    ensures sent.Some? && !(reply.Answered? && reply.ok) ==>
      && message == Some(HandleReply(Login, reply).text) && redirect == None
      && store.items == old(store.items)
    ensures sent.Some? && reply.Answered? && reply.ok ==>
      && message == Some([]) && redirect == Some(LandingPage)
      && store.items == old(store.items)[CurrentUserKey := StoredEntry(reply.user)]
    ensures redirect.Some? ==> reply.Answered? && reply.ok && store.CurrentUser() == reply.user && redirect == Some(LandingPage)
    ensures redirect == None ==> store.items == old(store.items)
  {
    sent, message, redirect := Submit(store, Login, ValidateLogin(form), reply);
  }
}
