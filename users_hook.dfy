/** The user directory of `src/features/users/hooks/useUsers.ts`. The users
    page `src/pages/Users.tsx` carries its own copy of the same state and
    handlers (its search handler reads the term off the input event), so this
    one class models both: the list of users read from the store, the search
    term, the loading flag, the form draft and the edit state. */
module UsersHook {
  import opened Outcomes
  import opened Rows
  import opened Lists
  import opened Search
  import opened Forms
  import RecordStore

  /** The `newUser` form state. The form only renders the inputs `name`,
      `email` and the checkbox `is_active`, so each field always holds a value. */
  datatype UserDraft = UserDraft(name: string, email: string, isActive: bool)

  /** `{ name: '', email: '', is_active: true }`. */
  const BLANK_DRAFT: UserDraft := UserDraft("", "", true)

  /** `{ ...prev, [name]: type === 'checkbox' ? checked : value }` for the
      three inputs of the form; an event for any other control leaves it. */
  function EditDraft(d: UserDraft, e: FieldEdit): (r: UserDraft)
    ensures e.TextEdit? && e.name == "name" ==> r == d.(name := e.value)
    ensures e.TextEdit? && e.name == "email" ==> r == d.(email := e.value)
    ensures e.CheckEdit? && e.name == "is_active" ==> r == d.(isActive := e.checked)
    ensures e.name !in {"name", "email", "is_active"} ==> r == d
    ensures e.CheckEdit? && e.name != "is_active" ==> r == d
  {
    match e
    case TextEdit(n, v) =>
      if n == "name" then d.(name := v)
      else if n == "email" then d.(email := v)
      else d
    case CheckEdit(n, c) =>
      if n == "is_active" then d.(isActive := c) else d
  }

  /** The draft that `startEditing` loads from a user. */
  function DraftOf(u: User): (d: UserDraft)
    ensures d.name == u.name && d.email == u.email && d.isActive == u.isActive
  {
    UserDraft(u.name, u.email, u.isActive)
  }

  /** `!newUser.name || !newUser.email`: an empty string is falsy. */
  predicate Filled(d: UserDraft) {
    d.name != "" && d.email != ""
  }

  /** What `handleEditUser` sends to `updateUser`: all three fields. */
  function PatchOf(d: UserDraft): (p: UserPatch)
    ensures p.name == Some(d.name) && p.email == Some(d.email) && p.isActive == Some(d.isActive)
  {
    UserPatch(Some(d.name), Some(d.email), Some(d.isActive))
  }

  /** Saving a draft loaded from a user without touching it only refreshes
      the user's update timestamp. */
  lemma SaveUnchangedDraft(u: User, now: Timestamp)
    ensures PatchUser(u, PatchOf(DraftOf(u)), now) == u.(updatedAt := now)
  {
  }

  /** Typing into every input of the form, in any order, leaves the values typed. */
  lemma {:induction false} EditsFillDraft(d: UserDraft, name: string, email: string, active: bool)
    ensures EditDraft(EditDraft(EditDraft(d, TextEdit("name", name)), TextEdit("email", email)),
                      CheckEdit("is_active", active)) == UserDraft(name, email, active)
    ensures EditDraft(EditDraft(EditDraft(d, CheckEdit("is_active", active)), TextEdit("email", email)),
                      TextEdit("name", name)) == UserDraft(name, email, active)
  {
    var a := EditDraft(d, TextEdit("name", name));
    assert a == d.(name := name);
    var b := EditDraft(d, CheckEdit("is_active", active));
    assert b == d.(isActive := active);
  }

  class UserDirectory {
    var users: seq<User>
    var searchTerm: string
    var loading: bool
    var draft: UserDraft
    var isEditing: bool
    var currentUserId: Option<string>

    constructor()
      ensures users == [] && searchTerm == "" && loading
      ensures draft == BLANK_DRAFT && !isEditing && currentUserId == None
    {
      users, searchTerm, loading := [], "", true;
      draft, isEditing, currentUserId := BLANK_DRAFT, false, None;
    }

    /** `users: filteredUsers`. */
    function Visible(): (r: seq<User>)
      reads this
      ensures forall u :: u in r <==> u in users && UserMatches(u, searchTerm)
      ensures forall u :: multiset(r)[u] == if UserMatches(u, searchTerm) then multiset(users)[u] else 0
      ensures IsSubsequence(r, users)
    {
      FilterUsers(users, searchTerm)
    }

    /** `fetchUsers`: the store's listing replaces the list, or the list stays. */
    method FetchUsers(store: RecordStore.Store, ok: bool)
      modifies this
      ensures !loading
      ensures ok ==> ListsTableDesc(users, store.users, UserCreated)
      ensures !ok ==> users == old(users)
      ensures searchTerm == old(searchTerm) && draft == old(draft)
      ensures isEditing == old(isEditing) && currentUserId == old(currentUserId)
    {
      loading := true;
      var reply := store.GetUsers(ok);
      if reply.Ok? {
        users := reply.value;
      }
      loading := false;
    }

    method HandleSearch(value: string)
      modifies this
      ensures searchTerm == value
      ensures users == old(users) && loading == old(loading) && draft == old(draft)
      ensures isEditing == old(isEditing) && currentUserId == old(currentUserId)
    {
      searchTerm := value;
    }

    method HandleInputChange(e: FieldEdit)
      modifies this
      ensures draft == EditDraft(old(draft), e)
      ensures users == old(users) && searchTerm == old(searchTerm) && loading == old(loading)
      ensures isEditing == old(isEditing) && currentUserId == old(currentUserId)
    {
      draft := EditDraft(draft, e);
    }

    /** `handleAddUser`: a draft with a name and an email is inserted; the
        new user goes first and the form is cleared. */
    method HandleAddUser(store: RecordStore.Store, newId: string, now: Timestamp, ok: bool)
      modifies this, store
      ensures store.books == old(store.books) && store.loans == old(store.loans)
      ensures var added := Filled(old(draft)) && ok && newId !in old(store.users);
        && (added ==>
              var u := NewUserRow(NewUser(old(draft).name, old(draft).email, old(draft).isActive), newId, now);
              && store.users == old(store.users)[newId := u]
              && users == [u] + old(users)
              && draft == BLANK_DRAFT)
        && (!added ==> store.users == old(store.users) && users == old(users) && draft == old(draft))
      ensures searchTerm == old(searchTerm) && loading == old(loading)
      ensures isEditing == old(isEditing) && currentUserId == old(currentUserId)
    {
      if !Filled(draft) {
        return;
      }
      var created := store.CreateUser(NewUser(draft.name, draft.email, draft.isActive), newId, now, ok);
      if created.Ok? {
        users := [created.value] + users;
        ResetForm();
      }
    }

    /** `handleEditUser`: a filled draft is sent for the user being edited;
        on success the reply replaces that user and the edit state is cleared. */
    method HandleEditUser(store: RecordStore.Store, now: Timestamp, ok: bool)
      modifies this, store
      ensures store.books == old(store.books) && store.loans == old(store.loans)
      ensures var saved := Filled(old(draft)) && old(currentUserId).Some? && old(currentUserId).value != ""
                           && ok && old(currentUserId).value in old(store.users);
        && (saved ==>
              var id := old(currentUserId).value;
              var u := PatchUser(old(store.users)[id], PatchOf(old(draft)), now);
              && store.users == old(store.users)[id := u]
              && users == ReplaceById(old(users), UserId, id, u)
              && draft == BLANK_DRAFT && !isEditing && currentUserId == None)
        && (!saved ==>
              && store.users == old(store.users) && users == old(users) && draft == old(draft)
              && isEditing == old(isEditing) && currentUserId == old(currentUserId))
      ensures searchTerm == old(searchTerm) && loading == old(loading)
    {
      if !Filled(draft) || currentUserId == None || currentUserId.value == "" {
        return;
      }
      var id := currentUserId.value;
      var updated := store.UpdateUser(id, PatchOf(draft), now, ok);
      if updated.Ok? {
        users := ReplaceById(users, UserId, id, updated.value);
        ResetForm();
        isEditing := false;
        currentUserId := None;
      }
    }

    /** `handleDeleteUser`: only after the confirmation; the user leaves the
        list only when the store deleted it. */
    method HandleDeleteUser(store: RecordStore.Store, id: string, confirmed: bool, ok: bool)
      modifies this, store
      ensures store.books == old(store.books) && store.loans == old(store.loans)
      ensures confirmed && ok ==> users == RemoveById(old(users), UserId, id) && store.users == old(store.users) - {id}
      ensures !(confirmed && ok) ==> users == old(users) && store.users == old(store.users)
      ensures searchTerm == old(searchTerm) && loading == old(loading) && draft == old(draft)
      ensures isEditing == old(isEditing) && currentUserId == old(currentUserId)
    {
      if confirmed {
        var outcome := store.DeleteUser(id, ok);
        if outcome.Pass? {
          users := RemoveById(users, UserId, id);
        }
      }
    }

    method StartEditing(u: User)
      modifies this
      ensures draft == DraftOf(u) && currentUserId == Some(u.id) && isEditing
      ensures users == old(users) && searchTerm == old(searchTerm) && loading == old(loading)
    {
      draft := DraftOf(u);
      currentUserId := Some(u.id);
      isEditing := true;
    }

    method ResetForm()
      modifies this
      ensures draft == BLANK_DRAFT
      ensures users == old(users) && searchTerm == old(searchTerm) && loading == old(loading)
      ensures isEditing == old(isEditing) && currentUserId == old(currentUserId)
    {
      draft := BLANK_DRAFT;
    }

    /** The dialog's `onOpenChange`: closing it clears the form and leaves
        edit mode; opening it changes nothing. */
    method HandleOpenChange(open: bool)
      modifies this
      ensures draft == if open then old(draft) else BLANK_DRAFT
      ensures isEditing == (open && old(isEditing))
      ensures currentUserId == if open then old(currentUserId) else None
      ensures users == old(users) && searchTerm == old(searchTerm) && loading == old(loading)
    {
      if !open {
        ResetForm();
        isEditing := false;
        currentUserId := None;
      }
    }
  }

  /** The blank form cannot be submitted: both required fields are empty. */
  lemma BlankDraftNotFilled()
    ensures !Filled(BLANK_DRAFT)
  {
  }
}
