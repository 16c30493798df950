/** The browser's `localStorage`: string values under string keys. */
module LocalStorage {
  import opened Wrappers

  type Storage = map<string, string>

  /** `getItem`: `None` stands for `null`. */
  function GetItem(s: Storage, key: string): Option<string> {
    if key in s then Some(s[key]) else None
  }

  function SetItem(s: Storage, key: string, value: string): Storage {
    s[key := value]
  }

  function RemoveItem(s: Storage, key: string): Storage {
    s - {key}
  }
}
