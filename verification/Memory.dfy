/** The C heap: which objects malloc has handed out and free has not taken back. */
module Memory {
  import opened Bytes

  /** The bytes of a C string before its terminator. */
  type Text = s: seq<byte> | NulFree(s)

  /** A string in memory. Its text outlives it here, so whatever reads one asks that it is live. */
  class CString {
    const text: Text

    constructor (text: Text)
      ensures this.text == text
    {
      this.text := text;
    }
  }

  /** strays counts the strings that were read after they had been freed. */
  class Heap {
    ghost var live: set<object>
    ghost var strays: nat

    /** A string that is handed over to malloc's keeping; malloc is taken to succeed. */
    method Keep(text: Text) returns (s: CString)
      modifies this`live
      ensures fresh(s) && s.text == text && live == old(live) + {s}
    {
      s := new CString(text);
      live := live + {s};
    }

    /** strdup. Of a string that has been freed it copies anything. */
    method StrDup(s: CString) returns (copy: CString)
      modifies this
      ensures fresh(copy) && live == old(live) + {copy}
      ensures strays == old(strays) + if s in old(live) then 0 else 1
      ensures s in old(live) ==> copy.text == s.text
    {
      strays := strays + if s in live then 0 else 1;
      copy := Keep(s.text);
    }

    /** malloc of n bytes. */
    method Alloc(n: nat) returns (a: array<byte>)
      modifies this`live
      ensures fresh(a) && a.Length == n && live == old(live) + {a}
    {
      a := new byte[n];
      live := live + {a};
    }

    /** free: only for what is live, and only once. What was in it is then anyone's guess. */
    method Free(o: object)
      requires o in live
      modifies this`live, o
      ensures live == old(live) - {o}
    {
      live := live - {o};
    }
  }
}
