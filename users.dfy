/**
 * The users table behind the repository: rows with the unique username and
 * email of the User record, queried and updated by primary key or email.
 * Database failures are one flag: when the database is down every call errs.
 */
module Users {
  import opened Wrappers

  datatype User = User(id: nat, username: string, email: string, password: string, role: string)

  /** Rows in primary-key order, the next auto-increment ID, and whether the database answers. */
  datatype Repo = Repo(users: seq<User>, nextId: nat, up: bool)

  datatype RepoError = Unavailable | NotFound | DuplicateKey

  /** A stored user together with the table after the insert. */
  datatype Inserted = Inserted(user: User, repo: Repo)

  ghost predicate EmailTaken(users: seq<User>, email: string)
  {
    exists i :: 0 <= i < |users| && users[i].email == email
  }

  ghost predicate UsernameTaken(users: seq<User>, username: string)
  {
    exists i :: 0 <= i < |users| && users[i].username == username
  }

  /** The first row, in primary-key order, whose email matches (what First returns). */
  function FirstWithEmail(users: seq<User>, email: string): (r: Option<nat>)
    ensures r.Some? ==> r.value < |users| && users[r.value].email == email
    ensures r.Some? ==> forall j :: 0 <= j < r.value ==> users[j].email != email
    ensures r.None? <==> !EmailTaken(users, email)
  {
    if |users| == 0 then None
    else if users[0].email == email then Some(0)
    else match FirstWithEmail(users[1..], email)
      case None =>
        assert forall i :: 1 <= i < |users| ==> users[i] == users[1..][i - 1];
        None
      case Some(k) => Some(k + 1)
  }

  /** FindByEmail: the user with that email, NotFound when there is none. */
  function FindByEmail(repo: Repo, email: string): (r: Result<User, RepoError>)
    ensures r.Ok? ==> r.value in repo.users && r.value.email == email
    ensures r.Err? <==> !repo.up || !EmailTaken(repo.users, email)
  {
    if !repo.up then Err(Unavailable)
    else match FirstWithEmail(repo.users, email)
      case None => Err(NotFound)
      case Some(i) => Ok(repo.users[i])
  }

  /** ExistsByEmail: whether a row carries that email. */
  function ExistsByEmail(repo: Repo, email: string): (r: Result<bool, RepoError>)
    ensures r.Err? <==> !repo.up
    ensures r.Ok? ==> (r.value <==> EmailTaken(repo.users, email))
  {
    if !repo.up then Err(Unavailable)
    else Ok(exists i | 0 <= i < |repo.users| :: repo.users[i].email == email)
  }

  /** Whether a row has that primary key (`id` is the user_id claim; negative IDs match nothing). */
  function ExistsById(repo: Repo, id: int): (r: Result<bool, RepoError>)
    ensures r.Err? <==> !repo.up
    ensures r.Ok? ==> (r.value <==> exists u :: u in repo.users && u.id == id)
  {
    if !repo.up then Err(Unavailable)
    else Ok(exists i | 0 <= i < |repo.users| :: repo.users[i].id == id)
  }

  /** Create: inserts `u` under the next ID, refused when the username or email is already stored. */
  function Create(repo: Repo, u: User): (r: Result<Inserted, RepoError>)
    ensures r.Ok? <==> repo.up && !UsernameTaken(repo.users, u.username) && !EmailTaken(repo.users, u.email)
    ensures r.Ok? ==> r.value.user == u.(id := repo.nextId)
    ensures r.Ok? ==> r.value.repo.users == repo.users + [r.value.user] && r.value.repo.up
    ensures r.Ok? ==> r.value.repo.nextId == repo.nextId + 1
  {
    if !repo.up then Err(Unavailable)
    else if (exists i | 0 <= i < |repo.users| :: repo.users[i].username == u.username)
         || (exists i | 0 <= i < |repo.users| :: repo.users[i].email == u.email)
    then Err(DuplicateKey)
    else
      var stored := u.(id := repo.nextId);
      Ok(Inserted(stored, Repo(repo.users + [stored], repo.nextId + 1, true)))
  }

  /** The table with the password of every row whose primary key is `id` replaced. */
  function WithPassword(users: seq<User>, id: int, hashed: string): (r: seq<User>)
    ensures |r| == |users|
    ensures forall i :: 0 <= i < |users| ==>
      r[i] == if users[i].id == id then users[i].(password := hashed) else users[i]
  {
    seq(|users|, i requires 0 <= i < |users| =>
      if users[i].id == id then users[i].(password := hashed) else users[i])
  }

  /** UpdatePassword: sets the password of the rows with that ID; no matching row is not an error. */
  function UpdatePassword(repo: Repo, id: int, hashed: string): (r: Result<Repo, RepoError>)
    ensures r.Err? <==> !repo.up
    ensures r.Ok? ==> r.value == repo.(users := WithPassword(repo.users, id, hashed))
  {
    if !repo.up then Err(Unavailable)
    else Ok(repo.(users := WithPassword(repo.users, id, hashed)))
  }
}
