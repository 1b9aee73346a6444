/** The numeric text-field editor of ui.c (`update_text_input`): a 64-byte buffer holding
    `count` characters and a cursor. Keys arrive as values: the queue of typed characters and
    whether Left, Right, Backspace and Delete were pressed (or repeated) this frame. The tail
    shifts are ui.c's `mem_move(dest, src, n)` calls, made here through `Memory.MemMove`
    with the source first. */
module TextInput {
  import opened Base
  import Memory

  const BUF_SIZE: nat := 64

  datatype InputState = InputState(buf: seq<byte>, count: int, cursor: int)

  /** 0 <= cursor <= count <= 64 over a 64-byte buffer. */
  predicate Valid(st: InputState)
  {
    |st.buf| == BUF_SIZE && 0 <= st.cursor <= st.count <= BUF_SIZE
  }

  /** The characters of the field. */
  function Text(st: InputState): (t: seq<byte>)
    requires Valid(st)
    ensures |t| == st.count
  {
    st.buf[..st.count]
  }

  /** Text-level edits the buffer operations are measured against. */
  function InsertAt(t: seq<byte>, k: nat, c: byte): (r: seq<byte>)
    requires k <= |t|
    ensures |r| == |t| + 1 && r[k] == c && r[..k] == t[..k] && r[k + 1..] == t[k..]
  {
    t[..k] + [c] + t[k..]
  }

  function RemoveAt(t: seq<byte>, k: nat): (r: seq<byte>)
    requires k < |t|
    ensures |r| == |t| - 1 && r[..k] == t[..k] && r[k..] == t[k + 1..]
  {
    t[..k] + t[k + 1..]
  }

  /** Character i after an insertion at k. */
  lemma InsertAtIndex(t: seq<byte>, k: nat, c: byte, i: nat)
    requires k <= |t| && i <= |t|
    ensures InsertAt(t, k, c)[i] == if i < k then t[i] else if i == k then c else t[i - 1]
  {
    var r := InsertAt(t, k, c);
    if i < k {
      assert r[i] == r[..k][i];
    } else if i > k {
      assert r[i] == r[k + 1..][i - k - 1];
    }
  }

  /** Character i after a removal at k. */
  lemma RemoveAtIndex(t: seq<byte>, k: nat, i: nat)
    requires k < |t| && i < |t| - 1
    ensures RemoveAt(t, k)[i] == if i < k then t[i] else t[i + 1]
  {
    var r := RemoveAt(t, k);
    if i < k {
      assert r[i] == r[..k][i];
    } else {
      assert r[i] == r[k..][i - k];
    }
  }

  /** Removing what was just inserted gives the text back. */
  lemma RemoveUndoesInsert(t: seq<byte>, k: nat, c: byte)
    requires k <= |t|
    ensures RemoveAt(InsertAt(t, k, c), k) == t
  {
    var r := RemoveAt(InsertAt(t, k, c), k);
    assert r == t[..k] + t[k..];
  }

  /** The key filter (ui.c:2494-2495): digits, '.', and '-' only in front. */
  predicate Accepts(key: int, cursor: int)
  {
    ('0' as int <= key <= '9' as int) || key == '.' as int || (key == '-' as int && cursor == 0)
  }

  /** One accepted key (ui.c:2496-2502): the tail moves right by one and the key takes the
      cursor's place. */
  method InsertKey(st: InputState, key: int) returns (r: InputState)
    requires Valid(st) && st.count < BUF_SIZE && Accepts(key, st.cursor)
    ensures Valid(r)
    ensures r.cursor == st.cursor + 1 && r.count == st.count + 1
    ensures Text(r) == InsertAt(Text(st), st.cursor, key as byte)
  {
    var buf := Memory.MemMove(st.buf, st.cursor, st.cursor + 1, st.count - st.cursor);
    buf := buf[st.cursor := key as byte];
    r := InputState(buf, st.count + 1, st.cursor + 1);
    assert Text(r) == InsertAt(Text(st), st.cursor, key as byte) by {
      forall k | 0 <= k < r.count
        ensures Text(r)[k] == InsertAt(Text(st), st.cursor, key as byte)[k]
      {
        InsertAtIndex(Text(st), st.cursor, key as byte, k);
        if k > st.cursor {
          assert Text(r)[k] == st.buf[k - 1];
        } else if k < st.cursor {
          assert Text(r)[k] == st.buf[k];
        }
      }
    }
  }

  /** The field after typing `keys` into text `t` at `cursor`, one key at a time: the text and
      the cursor. Typing stops at a full field or a non-positive code. */
  function Typed(t: seq<byte>, cursor: nat, keys: seq<int>): (r: (seq<byte>, nat))
    requires cursor <= |t| <= BUF_SIZE
    ensures r.1 <= |r.0| <= BUF_SIZE && |t| <= |r.0| && cursor <= r.1
    ensures r.1 - cursor == |r.0| - |t|
    decreases |keys|
  {
    if |t| >= BUF_SIZE || |keys| == 0 || keys[0] <= 0 then (t, cursor)
    else if Accepts(keys[0], cursor) then Typed(InsertAt(t, cursor, keys[0] as byte), cursor + 1, keys[1..])
    else Typed(t, cursor, keys[1..])
  }

  /** Every character typing adds is a digit, '.' or '-'; the text before the cursor's start
      and after it is kept. */
  lemma {:induction false} TypedInsertsAccepted(t: seq<byte>, cursor: nat, keys: seq<int>)
    requires cursor <= |t| <= BUF_SIZE
    ensures var r := Typed(t, cursor, keys);
            && r.0[..cursor] == t[..cursor]
            && r.0[r.1..] == t[cursor..]
            && forall i | cursor <= i < r.1 :: Accepts(r.0[i] as int, i)
    decreases |keys|
  {
    if |t| >= BUF_SIZE || |keys| == 0 || keys[0] <= 0 {
    } else if Accepts(keys[0], cursor) {
      var t2 := InsertAt(t, cursor, keys[0] as byte);
      TypedInsertsAccepted(t2, cursor + 1, keys[1..]);
      var r := Typed(t2, cursor + 1, keys[1..]);
      assert r.0[..cursor] == r.0[..cursor + 1][..cursor];
      assert r.0[cursor] == t2[cursor];
    } else {
      TypedInsertsAccepted(t, cursor, keys[1..]);
    }
  }

  /** The character loop (ui.c:2489-2503): keys are taken from the queue while the field has
      room and the queue yields a positive code; refused keys are dropped. */
  method TypeKeys(st: InputState, keys: seq<int>) returns (r: InputState)
    requires Valid(st)
    ensures Valid(r)
    ensures (Text(r), r.cursor as nat) == Typed(Text(st), st.cursor, keys)
  {
    r := st;
    var used := 0;
    while r.count < BUF_SIZE && used < |keys| && keys[used] > 0
      invariant Valid(r) && used <= |keys|
      invariant Typed(Text(st), st.cursor, keys) == Typed(Text(r), r.cursor, keys[used..])
    {
      assert keys[used..][1..] == keys[used + 1..];
      if Accepts(keys[used], r.cursor) {
        r := InsertKey(r, keys[used]);
      }
      used := used + 1;
    }
  }

  /** Left and Right (ui.c:2505-2506): one step, never past either end. */
  function MoveCursor(st: InputState, left: bool, right: bool): (r: InputState)
    requires Valid(st)
    ensures Valid(r) && Text(r) == Text(st) && r.buf == st.buf
    ensures left && !right ==> r.cursor == if st.cursor > 0 then st.cursor - 1 else 0
    ensures right && !left ==> r.cursor == if st.cursor < st.count then st.cursor + 1 else st.count
    ensures -1 <= r.cursor - st.cursor <= 1
  {
    st.(cursor := Moved(st.cursor, st.count, left, right))
  }

  /** The cursor after Left, then Right, in a field of `count` characters. */
  function Moved(cursor: int, count: int, left: bool, right: bool): int
  {
    var c1 := if left && cursor > 0 then cursor - 1 else cursor;
    if right && c1 < count then c1 + 1 else c1
  }

  /** Backspace (ui.c:2508-2516): the character before the cursor goes, and the cursor with it.
      The shift is skipped when the cursor lands on the last slot, where there is no tail. */
  method Backspace(st: InputState) returns (r: InputState)
    requires Valid(st) && st.cursor > 0
    ensures Valid(r) && r.cursor == st.cursor - 1 && r.count == st.count - 1
    ensures Text(r) == RemoveAt(Text(st), st.cursor - 1)
  {
    var cursor := st.cursor - 1;
    var buf := st.buf;
    if cursor < BUF_SIZE - 1 {
      buf := Memory.MemMove(st.buf, cursor + 1, cursor, st.count - cursor - 1);
    }
    r := InputState(buf, st.count - 1, cursor);
    assert Text(r) == RemoveAt(Text(st), cursor) by {
      forall k | 0 <= k < r.count
        ensures Text(r)[k] == RemoveAt(Text(st), cursor)[k]
      {
        RemoveAtIndex(Text(st), cursor, k);
        if k >= cursor {
          assert Text(r)[k] == st.buf[k + 1];
        } else {
          assert Text(r)[k] == st.buf[k];
        }
      }
    }
  }

  /** Delete (ui.c:2518-2522): the character at the cursor goes; the cursor stays. */
  method Delete(st: InputState) returns (r: InputState)
    requires Valid(st) && st.cursor < st.count
    ensures Valid(r) && r.cursor == st.cursor && r.count == st.count - 1
    ensures Text(r) == RemoveAt(Text(st), st.cursor)
  {
    var buf := Memory.MemMove(st.buf, st.cursor + 1, st.cursor, st.count - st.cursor - 1);
    r := InputState(buf, st.count - 1, st.cursor);
    assert Text(r) == RemoveAt(Text(st), st.cursor) by {
      forall k | 0 <= k < r.count
        ensures Text(r)[k] == RemoveAt(Text(st), st.cursor)[k]
      {
        RemoveAtIndex(Text(st), st.cursor, k);
        if k >= st.cursor {
          assert Text(r)[k] == st.buf[k + 1];
        } else {
          assert Text(r)[k] == st.buf[k];
        }
      }
    }
  }

  /** The keys of one frame. */
  datatype Keys = Keys(typed: seq<int>, left: bool, right: bool, backspace: bool, delete: bool)

  /** The text and cursor after one frame of keys, edit by edit in the source's order: the
      typed burst, Left/Right, Backspace at the cursor if it is past the start, Delete at
      the cursor if it is before the end. */
  function Edited(t: seq<byte>, cursor: nat, keys: Keys): (r: (seq<byte>, nat))
    requires cursor <= |t| <= BUF_SIZE
    ensures r.1 <= |r.0| <= BUF_SIZE
  {
    var typed := Typed(t, cursor, keys.typed);
    var t1, c1 := typed.0, typed.1;
    var c2: nat := Moved(c1, |t1|, keys.left, keys.right);
    var back := keys.backspace && c2 > 0;
    var t3 := if back then RemoveAt(t1, c2 - 1) else t1;
    var c3: nat := if back then c2 - 1 else c2;
    if keys.delete && c3 < |t3| then (RemoveAt(t3, c3), c3) else (t3, c3)
  }

  /** `update_text_input` (ui.c:2478-2523) without the cursor blink and hover fade: typed
      characters, then Left/Right, then Backspace, then Delete. */
  method UpdateTextInput(st: InputState, keys: Keys) returns (r: InputState)
    requires Valid(st)
    ensures Valid(r)
    ensures (Text(r), r.cursor as nat) == Edited(Text(st), st.cursor, keys)
    ensures !keys.backspace && !keys.delete ==> r.count >= st.count
    ensures keys.typed == [] && !keys.left && !keys.right && !keys.backspace && !keys.delete ==> Text(r) == Text(st) && r.cursor == st.cursor
  {
    r := TypeKeys(st, keys.typed);
    r := MoveCursor(r, keys.left, keys.right);
    if keys.backspace && r.cursor > 0 {
      r := Backspace(r);
    }
    if keys.delete && r.cursor < r.count {
      r := Delete(r);
    }
  }

  /** Typing one accepted character and pressing Backspace in the same frame leaves the text
      and the cursor as they were. */
  lemma TypeThenBackspace(t: seq<byte>, cursor: nat, key: int)
    requires cursor <= |t| < BUF_SIZE && key > 0 && Accepts(key, cursor)
    ensures Edited(t, cursor, Keys([key], false, false, true, false)) == (t, cursor)
  {
    var t1 := InsertAt(t, cursor, key as byte);
    assert Typed(t, cursor, [key]) == Typed(t1, cursor + 1, []);
    RemoveUndoesInsert(t, cursor, key as byte);
  }

  /** Pressing Delete after Left in the same frame removes the character before the cursor,
      just as Backspace does. */
  lemma LeftThenDeleteIsBackspace(t: seq<byte>, cursor: nat)
    requires 0 < cursor <= |t| <= BUF_SIZE
    ensures Edited(t, cursor, Keys([], true, false, false, true))
            == Edited(t, cursor, Keys([], false, false, true, false))
  {
  }
}
