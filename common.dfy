/** Values shared by the documentation pipeline and the source configuration. */
module Common {

  datatype Option<T> = None | Some(value: T)

  /** The two fatal errors the core can raise. */
  datatype Error =
    | FileNotFound(path: string)     // a directive names a file that is not on disk
    | UnknownInjector(name: string)  // `inject` names an injector the registry does not hold
    | ModuleDirNotString             // `module_html` is not a string when a directive needs it

  datatype Result<T> = Ok(value: T) | Err(error: Error)

  /** `_.extend({}, defaults, user)` and `objectAssign(target, defaults, user)`:
      every key of either object, the user's value winning. */
  function Merge<V>(defaults: map<string, V>, user: map<string, V>): (m: map<string, V>)
    ensures m.Keys == defaults.Keys + user.Keys
    ensures forall k :: k in user ==> m[k] == user[k]
    ensures forall k :: k in defaults && k !in user ==> m[k] == defaults[k]
  {
    defaults + user
  }
}
