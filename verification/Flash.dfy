/** One-shot messages (v2/session/flash.go): reading one consumes it for the next save. */
module Flash {
  import opened Session

  /** The two maps of a Flash. A key is consumed when `read` holds true for it. */
  datatype Box = Box(entries: map<string, string>, read: map<string, bool>) {
    predicate Consumed(k: string) {
      k in read && read[k]
    }

    predicate Pending(k: string) {
      k in entries && !Consumed(k)
    }

    function Active(): map<string, string> {
      ActiveIn(entries.Keys)
    }

    function ActiveIn(keys: set<string>): map<string, string> {
      map k | k in keys && Pending(k) :: entries[k]
    }
  }

  lemma NothingLeft(all: set<string>, done: set<string>)
    requires done <= all && all - done == {}
    ensures done == all
  {
    assert forall k :: k in all && k !in done ==> k in all - done;
  }

  datatype Op =
    | Add(key: string, value: string)
    | Get(key: string)
    | Peek(key: string)
    | GetAll
    | Has(key: string)
    | Clear

  datatype Output = Nothing | One(value: string) | All(values: map<string, string>) | Flag(present: bool)

  function Marked(read: map<string, bool>, keys: set<string>): map<string, bool> {
    read + map k | k in keys :: true
  }

  function MarkAll(b: Box): Box {
    b.(read := Marked(b.read, b.entries.Keys))
  }

  /** One turn of a loop over the entries, for the marks and for the collected values. */
  lemma OneMore(b: Box, done: set<string>, k: string)
    requires k in b.entries && k !in done
    ensures Marked(b.read, done)[k := true] == Marked(b.read, done + {k})
    ensures b.Consumed(k) ==> Marked(b.read, done + {k}) == Marked(b.read, done)
    ensures b.Consumed(k) ==> b.ActiveIn(done + {k}) == b.ActiveIn(done)
    ensures !b.Consumed(k) ==> b.ActiveIn(done + {k}) == b.ActiveIn(done)[k := b.entries[k]]
  {
  }

  function Do(b: Box, op: Op): (Box, Output) {
    match op
    case Add(k, v) => (Box(b.entries[k := v], b.read - {k}), Nothing)
    case Get(k) =>
      if b.Pending(k) then (b.(read := b.read[k := true]), One(b.entries[k])) else (b, One(""))
    case Peek(k) => (b, One(if b.Pending(k) then b.entries[k] else ""))
    case GetAll => (MarkAll(b), All(b.Active()))
    case Has(k) => (b, Flag(b.Pending(k)))
    case Clear => (MarkAll(b), Nothing)
  }

  class Flash {
    var entries: map<string, string>
    var read: map<string, bool>

    ghost function View(): Box
      reads this
    {
      Box(entries, read)
    }

    constructor ()
      ensures View() == Box(map[], map[])
    {
      entries, read := map[], map[];
    }

    method Add(key: string, value: string)
      modifies this
      ensures View() == Do(old(View()), Op.Add(key, value)).0
    {
      entries := entries[key := value];
      read := read - {key};
    }

    method IsConsumed(key: string) returns (c: bool)
      ensures c == View().Consumed(key)
    {
      c := key in read && read[key];
    }

    method Get(key: string) returns (v: string)
      modifies this`read
      ensures (View(), One(v)) == Do(old(View()), Op.Get(key))
    {
      var consumed := IsConsumed(key);
      if consumed || key !in entries {
        return "";
      }
      v := entries[key];
      read := read[key := true];
    }

    method Peek(key: string) returns (v: string)
      ensures (View(), One(v)) == Do(View(), Op.Peek(key))
    {
      var consumed := IsConsumed(key);
      if consumed {
        return "";
      }
      v := if key in entries then entries[key] else "";
    }

    method Has(key: string) returns (present: bool)
      ensures (View(), Flag(present)) == Do(View(), Op.Has(key))
    {
      var consumed := IsConsumed(key);
      present := !consumed && key in entries;
    }

    /** Walks the map in whatever order its keys come; so do Clear and ActiveEntries. */
    method GetAll() returns (result: map<string, string>)
      modifies this`read
      ensures (View(), All(result)) == Do(old(View()), Op.GetAll)
    {
      result := map[];
      var done: set<string> := {};
      ghost var was := View();
      while entries.Keys - done != {}
        invariant done <= entries.Keys
        invariant result == was.ActiveIn(done)
        invariant read == Marked(was.read, done)
        decreases entries.Keys - done
      {
        var k :| k in entries.Keys - done;
        var consumed := IsConsumed(k);
        assert consumed == was.Consumed(k);
        if !consumed {
          result := result[k := entries[k]];
          read := read[k := true];
        }
        OneMore(was, done, k);
        done := done + {k};
      }
      NothingLeft(entries.Keys, done);
    }

    method Clear()
      modifies this`read
      ensures View() == Do(old(View()), Op.Clear).0
    {
      var done: set<string> := {};
      while entries.Keys - done != {}
        invariant done <= entries.Keys
        invariant read == Marked(old(read), done)
        decreases entries.Keys - done
      {
        var k :| k in entries.Keys - done;
        OneMore(old(View()), done, k);
        read := read[k := true];
        done := done + {k};
      }
      NothingLeft(entries.Keys, done);
    }

    method ActiveEntries() returns (result: map<string, string>)
      ensures result == View().Active()
    {
      result := map[];
      var done: set<string> := {};
      while entries.Keys - done != {}
        invariant done <= entries.Keys
        invariant result == View().ActiveIn(done)
        decreases entries.Keys - done
      {
        var k :| k in entries.Keys - done;
        var consumed := IsConsumed(k);
        if !consumed {
          result := result[k := entries[k]];
        }
        OneMore(View(), done, k);
        done := done + {k};
      }
      NothingLeft(entries.Keys, done);
    }
  }

  // ----- Flash entries inside session data -----

  const FLASH_KEY := "_flash"

  /** The entries a session carries, in the shape they were set or the shape JSON gives them back. */
  function FlashOf(d: Data): map<string, string> {
    if FLASH_KEY !in d then map[]
    else match d[FLASH_KEY]
         case TextMap(m) => m
         case AnyMap(m) => map k | k in m && m[k].Text? :: m[k].text
         case _ => map[]
  }

  function FlashMutation(active: map<string, string>): Mutation {
    if |active| == 0 then DeleteKey(FLASH_KEY) else SetKey(FLASH_KEY, TextMap(active))
  }

  method LoadFlashFromSession(s: Session?) returns (f: Flash)
    ensures fresh(f)
    ensures f.View() == Box(if s == null then map[] else FlashOf(s.data), map[])
  {
    f := new Flash();
    if s == null || FLASH_KEY !in s.data {
      return;
    }
    match s.data[FLASH_KEY]
    case TextMap(m) => f.entries := m;
    case AnyMap(m) => f.entries := map k | k in m && m[k].Text? :: m[k].text;
    case _ =>
  }

  method SaveFlashToSession(s: Session?, f: Flash?)
    modifies s
    ensures s != null && f != null ==>
              s.View() == Mutate(old(s.View()), FlashMutation(old(f.View()).Active()))
    ensures s != null && f == null ==> s.View() == old(s.View())
  {
    if s == null || f == null {
      return;
    }
    var active := f.ActiveEntries();
    if |active| == 0 {
      s.Delete(FLASH_KEY);
      return;
    }
    s.Set(FLASH_KEY, TextMap(active));
  }
}
