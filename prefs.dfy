/**
 * The engine's global string preference store (`PlayerPrefs`), held as a value: the passes take
 * the store as it stands and return it as they leave it.
 */
module Prefs {

  /** What `GetString(key)` reads: the stored value, or the empty string when the key is absent. */
  function Lookup(store: map<string, string>, key: string): string {
    if key in store then store[key] else ""
  }
}
