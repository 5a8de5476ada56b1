/** The session state of `src/contexts/AuthContext.jsx`: the signed-in user held in
    memory and its JSON text kept in `localStorage` under `fitlife-user`.  A JSON
    `null` stands for the signed-out state. */
module AuthContext {
  import opened Wrappers
  import opened Text
  import opened Json
  import opened BrowserStorage

  const UserKey: string := "fitlife-user"

  // ---------------------------------------------------------------------------
  // Object spread

  /** The own enumerable properties that spreading `v` copies: an object's fields, an
      array's indices, one property per character of a string, and nothing for `null`,
      a number or a boolean. */
  function OwnFields(v: Json): seq<Field> {
    match v
    case JObj(fields) => fields
    case JArr(items) => seq(|items|, i requires 0 <= i < |items| => Field(NatToString(i), items[i]))
    case JStr(s) => seq(|s|, i requires 0 <= i < |s| => Field(NatToString(i), JStr([s[i]])))
    case _ => []
  }

  /** `{ ...prev, ...userData }`: a fresh object that is assigned `prev`'s properties,
      then `userData`'s. */
  function Merge(prev: Json, userData: Json): Json {
    JObj(Spread(Spread([], OwnFields(prev)), OwnFields(userData)))
  }

  lemma MergeValue(prev: Json, userData: Json, k: string)
    ensures FieldValue(Merge(prev, userData).fields, k) ==
      if FieldValue(OwnFields(userData), k).Some? then FieldValue(OwnFields(userData), k)
      else FieldValue(OwnFields(prev), k)
  {
    SpreadValue(Spread([], OwnFields(prev)), OwnFields(userData), k);
    SpreadValue([], OwnFields(prev), k);
  }

  /** The properties spreading a value copies hold well-formed values. */
  lemma OwnFieldsWellFormed(v: Json)
    requires WellFormed(v)
    ensures FieldsWellFormed(OwnFields(v))
  {
  }

  /** Merging two JavaScript values gives a JavaScript object: its keys are distinct. */
  lemma MergeWellFormed(prev: Json, userData: Json)
    requires WellFormed(prev) && WellFormed(userData)
    ensures WellFormed(Merge(prev, userData))
  {
    OwnFieldsWellFormed(prev);
    OwnFieldsWellFormed(userData);
    SpreadWellFormed([], OwnFields(prev));
    SpreadWellFormed(Spread([], OwnFields(prev)), OwnFields(userData));
  }

  // ---------------------------------------------------------------------------
  // The persisted user

  /** What the initial load makes of the store: the signed-out state when the entry is
      missing or empty, the parsed user, or `None` when the entry does not parse. */
  function LoadUser(items: map<string, string>): (r: Option<Json>)
    ensures (UserKey !in items || items[UserKey] == "") ==> r == Some(JNull)
  {
    if UserKey !in items || items[UserKey] == "" then Some(JNull) else Parse(items[UserKey])
  }

  /** Storing a user's text makes a later load give that user back. */
  lemma LoadStoredUser(items: map<string, string>, u: Json)
    requires WellFormed(u)
    ensures LoadUser(items[UserKey := Stringify(u)]) == Some(u)
  {
    ParseStringify(u);
  }

  /** A load after the entry is removed gives the signed-out state, and removing it a
      second time changes nothing. */
  lemma LoadRemovedUser(items: map<string, string>)
    ensures LoadUser(items - {UserKey}) == Some(JNull)
    ensures (items - {UserKey}) - {UserKey} == items - {UserKey}
  {
  }

  /** `login(null)` signs out in memory but leaves an entry: the entry is not always
      absent when the user is `null`. */
  lemma LoginNullKeepsEntry(items: map<string, string>)
    ensures var after := items[UserKey := Stringify(JNull)];
      UserKey in after && after[UserKey] == "null" && LoadUser(after) == Some(JNull)
  {
    LoadStoredUser(items, JNull);
  }

  class AuthProvider {
    var user: Json
    /** False once a render of the provider has thrown: React then unmounts it. */
    var mounted: bool
    const store: LocalStorage
    /** The provider never reports that it is loading. */
    const loading: bool := false

    /** The provider is on screen, which needs a store it can read, and it holds a
        JavaScript value as its user. */
    predicate Live()
      reads this
    {
      mounted && store.available && WellFormed(user)
    }

    /** The persisted entry loads as the user held in memory. */
    ghost predicate Valid()
      reads this, store
    {
      Live() && LoadUser(store.items) == Some(user)
    }

    /** The initial load: a corrupt entry is removed and gives the signed-out state.
        When storage is blocked, `getItem` throws out of the first render and the
        provider never mounts. */
    constructor(store: LocalStorage)
      modifies store
      ensures this.store == store
      ensures mounted <==> store.available
      ensures mounted ==> Valid() && user == LoadUser(old(store.items)).GetOr(JNull)
      ensures store.items ==
        if mounted && LoadUser(old(store.items)).None? then old(store.items) - {UserKey} else old(store.items)
    {
      this.store := store;
      var ok, saved := store.GetItem(UserKey);
      mounted := ok;
      if ok && saved.Some? && saved.value != "" {
        var parsed := Parse(saved.value);
        ParseWellFormed(saved.value);
        if parsed.Some? {
          user := parsed.value;
        } else {
          var removed := store.RemoveItem(UserKey);
          user := JNull;
        }
      } else {
        user := JNull;
      }
    }

    /** `login(userData)`: the user is set first, so a `setItem` that throws (`threw`)
        leaves the new user in memory beside the entry of the previous one. */
    method Login(userData: Json) returns (threw: bool)
      requires Live() && WellFormed(userData)
      modifies this, store
      ensures Live() && user == userData
      ensures threw <==> !store.Accepts(old(store.items)[UserKey := Stringify(userData)])
      ensures store.items == if threw then old(store.items) else old(store.items)[UserKey := Stringify(userData)]
      ensures !threw ==> Valid()
      ensures threw && old(Valid()) ==> LoadUser(store.items) == Some(old(user))
    {
      user := userData;
      var ok := store.SetItem(UserKey, Stringify(userData));
      threw := !ok;
      LoadStoredUser(old(store.items), userData);
    }

    /** `logout()`: `removeItem` throws only on blocked storage, which a mounted provider
        does not have. */
    method Logout()
      requires Live()
      modifies this, store
      ensures Valid()
      ensures user == JNull
      ensures store.items == old(store.items) - {UserKey}
    {
      user := JNull;
      var ok := store.RemoveItem(UserKey);
    }

    /** `updateUser(userData)`: the updater stores `{ ...prev, ...userData }` and returns
        it.  A `setItem` that throws inside the updater throws out of the next render,
        which unmounts the provider with its state and the store unchanged. */
    method UpdateUser(userData: Json)
      requires Live() && WellFormed(userData)
      modifies this, store
      ensures var updated := Merge(old(user), userData);
        if store.Accepts(old(store.items)[UserKey := Stringify(updated)]) then
          Valid() && user == updated && store.items == old(store.items)[UserKey := Stringify(updated)]
        else
          !mounted && user == old(user) && store.items == old(store.items)
    {
      var updated := Merge(user, userData);
      var ok := store.SetItem(UserKey, Stringify(updated));
      if ok {
        MergeWellFormed(user, userData);
        user := updated;
        LoadStoredUser(old(store.items), updated);
      } else {
        mounted := false;
      }
    }
  }
}
