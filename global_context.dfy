/** The client's shared state: the entry list it keeps in step with the server, and the
    dark-mode preference it persists in the browser's storage. */
module GlobalContext {
  import opened Js
  import opened Context

  /** How an awaited axios request settles: resolved with the response data for a 2xx
      status, rejected for any other status (the server's 500s) or a network failure. */
  datatype Response<T> = Resolved(data: T) | Rejected

  /** `entries.findIndex(obj => obj.id == id)`: the first matching index, or -1. */
  function FindIndex(s: seq<Entry>, id: string): (k: int)
    ensures -1 <= k < |s|
    ensures k == -1 <==> !HasId(s, id)
    ensures k >= 0 ==> s[k].id == Some(id) && forall j :: 0 <= j < k ==> s[j].id != Some(id)
  {
    match FirstIndexOf(s, id)
    case Some(i) => i
    case None => -1
  }

  /** The list `updateEntry` leaves: the first entry with the id replaced, every other
      position as it was, the length unchanged. */
  function ReplaceFirst(s: seq<Entry>, id: string, entry: Entry): (r: seq<Entry>)
    ensures |r| == |s|
    ensures HasId(s, id) ==> r[FindIndex(s, id)] == entry
    ensures forall j :: 0 <= j < |s| && j != FindIndex(s, id) ==> r[j] == s[j]
    ensures !HasId(s, id) ==> r == s
  {
    var k := FindIndex(s, id);
    if k >= 0 then s[k := entry] else s
  }

  /** `b.toString()` for a boolean. */
  function BoolToString(b: bool): (s: string)
    ensures s == "true" || s == "false"
    ensures ReadDarkMode(Some(s)) == b
  {
    if b then "true" else "false"
  }

  /** The initial read `localStorage.getItem('darkMode') === 'true'`, where None is the
      `null` of a key never written: only the exact string "true" turns the mode on. */
  function ReadDarkMode(stored: Option<string>): (on: bool)
    ensures stored.None? ==> !on
    ensures stored == Some("true") ==> on
    ensures stored == Some("false") || stored == Some("True") || stored == Some("1") ==> !on
  {
    stored == Some("true")
  }

  /** The dark-mode part of the provider: the flag, the stored string, and whether the
      document root carries the `dark` class. */
  datatype DarkModeState = DarkModeState(darkMode: bool, stored: Option<string>, rootHasDark: bool)

  /** The state is consistent: the root's class follows the flag, and reading the stored
      string back gives the flag. */
  predicate Consistent(p: DarkModeState) {
    p.rootHasDark == p.darkMode && ReadDarkMode(p.stored) == p.darkMode
  }

  /** The stored string is the one `toggleDarkMode` writes for the current flag. */
  predicate Persisted(p: DarkModeState) {
    p.stored == Some(BoolToString(p.darkMode))
  }

  /** The state after `toggleDarkMode`: the negated flag, the root's class set to match it,
      and the flag's string written to storage. */
  function Toggled(p: DarkModeState): (q: DarkModeState)
    ensures q.darkMode == !p.darkMode
    ensures Consistent(q) && Persisted(q)
  {
    var newMode := !p.darkMode;
    DarkModeState(newMode, Some(BoolToString(newMode)), newMode)
  }

  /** Toggling twice restores the flag; from a persisted, consistent state it restores the
      whole state, stored string included. */
  lemma ToggleTwice(p: DarkModeState)
    ensures Toggled(Toggled(p)).darkMode == p.darkMode
    ensures Consistent(p) && Persisted(p) ==> Toggled(Toggled(p)) == p
  {
  }

  /** The state container the provider hands to the views. */
  class EntryProvider {
    var entries: array<Entry>
    var darkMode: bool
    var storedDarkMode: Option<string>
    var rootHasDark: bool

    ghost function DarkState(): DarkModeState
      reads this
    {
      DarkModeState(darkMode, storedDarkMode, rootHasDark)
    }

    ghost predicate Valid()
      reads this
    {
      Consistent(DarkState())
    }

    /** Mounting the provider: the list starts empty, the flag is read from storage, and
        the effect on the flag sets the root's class to match. */
    constructor (stored: Option<string>)
      ensures Valid() && fresh(entries) && entries[..] == []
      ensures darkMode == ReadDarkMode(stored) && storedDarkMode == stored
    {
      entries := new Entry[0];
      darkMode := ReadDarkMode(stored);
      storedDarkMode := stored;
      rootHasDark := darkMode;
    }

    /** `initState`: the list fetched from `GET /get/` becomes the state. */
    method InitState(response: Response<seq<Entry>>) returns (resolved: bool)
      requires Valid()
      modifies this
      ensures Valid() && DarkState() == old(DarkState())
      ensures resolved <==> response.Resolved?
      ensures response.Resolved? ==> fresh(entries) && entries[..] == response.data
      ensures response.Rejected? ==> entries == old(entries)
    {
      if response.Rejected? {
        return false;
      }
      var data := response.data;
      entries := new Entry[|data|](i requires 0 <= i < |data| => data[i]);
      return true;
    }

    /** `saveEntry`: once `POST /create/` resolves, a new list holding the old entries
        followed by the entry the server returned. */
    method SaveEntry(entry: Entry, response: Response<Entry>) returns (resolved: bool)
      requires Valid()
      modifies this
      ensures Valid() && DarkState() == old(DarkState())
      ensures resolved <==> response.Resolved?
      ensures response.Resolved? ==> fresh(entries) && entries[..] == old(entries[..]) + [response.data]
      ensures response.Rejected? ==> entries == old(entries) && entries[..] == old(entries[..])
    {
      if response.Rejected? {
        return false;
      }
      var newList := entries[..] + [response.data];
      entries := new Entry[|newList|](i requires 0 <= i < |newList| => newList[i]);
      return true;
    }

    /** `updateEntry`: once `PUT /update/:id` resolves, the first entry with the id is
        overwritten in the existing array. Where no entry matches, `findIndex` gives -1 and
        `entries[-1] = entry` writes no element. */
    method UpdateEntry(id: string, entry: Entry, response: Response<string>) returns (resolved: bool)
      modifies entries
      ensures resolved <==> response.Resolved?
      ensures response.Resolved? ==> entries[..] == ReplaceFirst(old(entries[..]), id, entry)
      ensures response.Rejected? ==> entries[..] == old(entries[..])
    {
      if response.Rejected? {
        return false;
      }
      var entryIndex := FindIndex(entries[..], id);
      if entryIndex >= 0 {
        entries[entryIndex] := entry;
      }
      return true;
    }

    /** `deleteEntry`: once `DELETE /delete/:id` resolves, a new list without the entries
        carrying the id. */
    method DeleteEntry(id: string, response: Response<string>) returns (resolved: bool)
      requires Valid()
      modifies this
      ensures Valid() && DarkState() == old(DarkState())
      ensures resolved <==> response.Resolved?
      ensures response.Resolved? ==> fresh(entries) && entries[..] == WithoutId(old(entries[..]), id)
      ensures response.Rejected? ==> entries == old(entries) && entries[..] == old(entries[..])
    {
      if response.Rejected? {
        return false;
      }
      var kept := WithoutId(entries[..], id);
      entries := new Entry[|kept|](i requires 0 <= i < |kept| => kept[i]);
      return true;
    }

    /** `toggleDarkMode`: flip the flag, set the root's class to match, persist the flag's
        string. */
    method ToggleDarkMode()
      requires Valid()
      modifies this
      ensures Valid() && Persisted(DarkState())
      ensures DarkState() == Toggled(old(DarkState()))
      ensures entries == old(entries)
    {
      var newMode := !darkMode;
      rootHasDark := newMode;
      storedDarkMode := Some(BoolToString(newMode));
      darkMode := newMode;
    }
  }
}
