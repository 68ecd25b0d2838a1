/**
 * AuthContext: the signed-in state shared by the screens. The token lives both in the context
 * (`userToken`) and in the device's key-value storage under 'userToken', so that it survives a
 * restart of the app.
 */
module AuthContext {
  import opened Wrappers
  import opened ApiClient

  const TokenKey: string := "userToken"

  /** The device's key-value storage (AsyncStorage). */
  type Storage = map<string, string>

  /** One observable step of the context, in the order the handlers take them. */
  datatype Step =
    | SetLoading(on: bool)
    | StorageSet(key: string, value: string)
    | StorageRemove(key: string)
    | SetToken(token: Option<string>)

  /** The storage after setTokenAndState(token): a truthy token is written, anything else removes the key. */
  function StoreToken(s: Storage, token: Option<string>): (r: Storage)
    ensures TruthyOpt(token) ==> TokenKey in r && r[TokenKey] == token.value
    ensures !TruthyOpt(token) ==> TokenKey !in r
    ensures forall k :: k != TokenKey ==> (k in r <==> k in s)
    ensures forall k :: k != TokenKey && k in s ==> r[k] == s[k]
  {
    if TruthyOpt(token) then s[TokenKey := token.value] else s - {TokenKey}
  }

  /** The storage steps of setTokenAndState(token), then the state update. */
  function StoreSteps(token: Option<string>): seq<Step>
  {
    (if TruthyOpt(token) then [StorageSet(TokenKey, token.value)] else [StorageRemove(TokenKey)])
    + [SetToken(token)]
  }

  /** The steps of login(token): loading, storing, taking the token, not loading. */
  function LoginSteps(token: Option<string>): seq<Step>
  {
    [SetLoading(true)] + StoreSteps(token) + [SetLoading(false)]
  }

  /** What getItem('userToken') reads: the stored string, or null when the key is absent. */
  function Restored(s: Storage): Option<string>
  {
    if TokenKey in s then Some(s[TokenKey]) else None
  }

  /**
   * Reading the token back after it was stored gives it back when it is truthy, and null
   * otherwise: after login(t) a restart restores t, after logout() it restores nothing, and
   * after login('') it restores null although the context held ''.
   */
  lemma RestoreAfterStore(s: Storage, token: Option<string>)
    ensures TruthyOpt(token) ==> Restored(StoreToken(s, token)) == token
    ensures !TruthyOpt(token) ==> Restored(StoreToken(s, token)) == None
    ensures Restored(StoreToken(s, Some(""))) == None
  {
  }

  /** Storing twice keeps only the second token. */
  lemma StoreTokenOverwrites(s: Storage, t1: Option<string>, t2: Option<string>)
    ensures StoreToken(StoreToken(s, t1), t2) == StoreToken(s, t2)
  {
  }

  class Context {
    var isLoading: bool
    var userToken: Option<string>
    var storage: Storage
    var steps: seq<Step>

    /** The provider as it mounts: loading, with no token yet, over what the device has stored. */
    constructor(persisted: Storage)
      ensures isLoading && userToken == None && storage == persisted && steps == []
    {
      isLoading := true;
      userToken := None;
      storage := persisted;
      steps := [];
    }

    /** setTokenAndState: the storage is written (or cleared) before the context takes the token. */
    method SetTokenAndState(token: Option<string>)
      modifies this
      ensures storage == StoreToken(old(storage), token)
      ensures userToken == token
      ensures steps == old(steps) + StoreSteps(token)
      ensures isLoading == old(isLoading)
    {
      if TruthyOpt(token) {
        storage := storage[TokenKey := token.value];
        steps := steps + [StorageSet(TokenKey, token.value)];
      } else {
        storage := storage - {TokenKey};
        steps := steps + [StorageRemove(TokenKey)];
      }
      userToken := token;
      steps := steps + [SetToken(token)];
    }

    /** login: loading while the token is stored, then not loading, signed in with `token`. */
    method Login(token: Option<string>)
      modifies this
      ensures storage == StoreToken(old(storage), token)
      ensures userToken == token && !isLoading
      ensures steps == old(steps) + LoginSteps(token)
    {
      isLoading := true;
      steps := steps + [SetLoading(true)];
      SetTokenAndState(token);
      isLoading := false;
      steps := steps + [SetLoading(false)];
    }

    /** logout: loading while the key is removed, then not loading, with no token. */
    method Logout()
      modifies this
      ensures storage == StoreToken(old(storage), None) && TokenKey !in storage
      ensures userToken == None && !isLoading
      ensures steps == old(steps) + [SetLoading(true), StorageRemove(TokenKey), SetToken(None), SetLoading(false)]
    {
      isLoading := true;
      steps := steps + [SetLoading(true)];
      SetTokenAndState(None);
      isLoading := false;
      steps := steps + [SetLoading(false)];
    }

    /**
     * isLoggedIn, run once at mount: the stored token (null when absent) becomes the context's;
     * a failed read leaves the token as it was. Loading ends either way.
     */
    method IsLoggedIn(readFails: bool)
      modifies this
      ensures !readFails ==> userToken == Restored(storage) && steps == old(steps) + [SetToken(Restored(storage)), SetLoading(false)]
      ensures readFails ==> userToken == old(userToken) && steps == old(steps) + [SetLoading(false)]
      ensures !isLoading && storage == old(storage)
    {
      if !readFails {
        var token := Restored(storage);
        userToken := token;
        steps := steps + [SetToken(token)];
      }
      isLoading := false;
      steps := steps + [SetLoading(false)];
    }
  }
}
