/**
 * Executing a request command: the command table and the dispatch to the handlers.
 */
module Dispatch {
  import opened Names
  import opened Ledgers
  import opened Stores
  import opened Requests
  import opened Responses
  import opened Buffers
  import opened Exec
  import A = Abstract

  /** The linear scan of the command table. */
  method FindCmd(name: Bytes) returns (i: int)
    ensures i == A.CmdIndex(name, 0)
  {
    hide Ascii;
    i := 0;
    while i < |A.CMD_TABLE|
      invariant 0 <= i <= |A.CMD_TABLE| && A.CmdIndex(name, 0) == A.CmdIndex(name, i)
    {
      if name == Ascii(A.CMD_TABLE[i].0) {
        return;
      }
      i := i + 1;
    }
    i := -1;
  }

  /** The handlers of commands on strings, keys and deadlines. */
  method RunKeyCmd(st: Store, lib: A.Library, i: int, cmd: Command, now: nat, out: Buffer)
    requires Ready(st, out) && !A.Aborts(cmd, lib) && cmd != [] && i == A.CmdIndex(cmd[0], 0)
    requires i in {0, 1, 2, 9, 10, 11} && |cmd| == A.CMD_TABLE[i].1
    modifies st.core, st.zparts, out, out.mem
    ensures Ready(st, out) && (out.mem == old(out.mem) || fresh(out.mem))
    ensures fresh(st.core - old(st.core)) && fresh(st.zparts - old(st.zparts))
    ensures Follows(old(st.State()), old(st.Owners()), st.State(), st.Owners())
    ensures var o := A.Handle(old(st.State()), cmd, now, lib);
            st.State() == o.next && out.Contents() == old(out.Contents()) + Encode(o.r)
  {
    hide Store.Ok, Store.Deadlines, Store.Owners, Follows, Ready, Encode, Buffer.Contents, Buffer.Front, Ascii,
         A.CmdIndex, A.Get, A.Set, A.Del, A.PExpire, A.Persist, A.PTtl;
    if i == 0 {
      ExecGet(st, cmd[1], out);
    } else if i == 1 {
      ExecSet(st, cmd[1], cmd[2], out);
    } else if i == 2 {
      ExecDel(st, cmd[1], out);
    } else if i == 9 {
      ExecPExpire(st, cmd[1], lib.num(cmd[2]), now, out);
    } else if i == 10 {
      ExecPersist(st, cmd[1], out);
    } else {
      ExecPTtl(st, cmd[1], now, out);
    }
  }

  /** The handlers of commands on sorted sets. */
  method RunSetCmd(st: Store, lib: A.Library, i: int, cmd: Command, now: nat, out: Buffer)
    requires Ready(st, out) && !A.Aborts(cmd, lib) && cmd != [] && i == A.CmdIndex(cmd[0], 0)
    requires 4 <= i <= 8 && |cmd| == A.CMD_TABLE[i].1
    modifies st.core, st.zparts, out, out.mem
    ensures Ready(st, out) && (out.mem == old(out.mem) || fresh(out.mem))
    ensures fresh(st.core - old(st.core)) && fresh(st.zparts - old(st.zparts))
    ensures Follows(old(st.State()), old(st.Owners()), st.State(), st.Owners())
    ensures var o := A.Handle(old(st.State()), cmd, now, lib);
            st.State() == o.next && out.Contents() == old(out.Contents()) + Encode(o.r)
  {
    hide Store.Ok, Store.Deadlines, Store.Owners, Follows, Ready, Encode, Buffer.Contents, Buffer.Front, Ascii,
         A.CmdIndex, A.ZAdd, A.ZRem, A.ZScore, A.ZRank, A.ZQuery;
    KeysStay(st.State(), st.Owners(), st.State());
    if i == 4 {
      ExecZAdd(st, cmd[1], lib.dbl(cmd[2]), cmd[3], out);
    } else if i == 5 {
      ExecZRem(st, cmd[1], cmd[2], out);
    } else if i == 6 {
      ExecZScore(st, cmd[1], cmd[2], out);
    } else if i == 7 {
      ExecZRank(st, cmd[1], cmd[2], out);
    } else {
      ExecZQuery(st, cmd[1], lib.dbl(cmd[2]), cmd[3], lib.num(cmd[4]), lib.num(cmd[5]), out);
    }
  }

  /** A command in the table, with the right number of arguments. */
  method RunCmd(st: Store, lib: A.Library, i: int, cmd: Command, now: nat, out: Buffer) returns (ghost r: Res)
    requires Ready(st, out) && !A.Aborts(cmd, lib) && cmd != [] && i == A.CmdIndex(cmd[0], 0)
    requires i != -1 && |cmd| == A.CMD_TABLE[i].1
    modifies st.core, st.zparts, out, out.mem
    ensures Ready(st, out) && (out.mem == old(out.mem) || fresh(out.mem))
    ensures fresh(st.core - old(st.core)) && fresh(st.zparts - old(st.zparts))
    ensures Follows(old(st.State()), old(st.Owners()), st.State(), st.Owners())
    ensures A.Answers(old(st.State()), cmd, now, lib, st.State(), r)
    ensures out.Contents() == old(out.Contents()) + Encode(r)
  {
    hide Store.Ok, Store.Deadlines, Store.Owners, Follows, Ready, Encode, Buffer.Contents, Buffer.Front, Ascii,
         A.CmdIndex, A.Handle, A.ListsKeys;
    KeysStay(st.State(), st.Owners(), st.State());
    r := A.Handle(st.State(), cmd, now, lib).r;
    if i == 3 {
      ghost var was, keys := out.Contents(), st.State().values.Keys;
      ExecKeys(st, out);
      r :| A.ListsKeys(r, keys) && out.Contents() == was + Encode(r);
    } else if 4 <= i <= 8 {
      RunSetCmd(st, lib, i, cmd, now, out);
    } else {
      RunKeyCmd(st, lib, i, cmd, now, out);
    }
  }

  /**
   * exec_cmd: exactly one response is appended, the one the abstract store gives; ok is false
   * exactly when an assertion stops the process, with nothing changed.
   */
  method ExecCmd(st: Store, lib: A.Library, cmd: Command, now: nat, out: Buffer) returns (ok: bool, ghost r: Res)
    requires Ready(st, out)
    modifies st.core, st.zparts, out, out.mem
    ensures Ready(st, out) && (out.mem == old(out.mem) || fresh(out.mem))
    ensures fresh(st.core - old(st.core)) && fresh(st.zparts - old(st.zparts))
    ensures Follows(old(st.State()), old(st.Owners()), st.State(), st.Owners())
    ensures ok == !A.Aborts(cmd, lib)
    ensures ok ==> A.Answers(old(st.State()), cmd, now, lib, st.State(), r)
    ensures out.Contents() == old(out.Contents()) + (if ok then Encode(r) else [])
    ensures !ok ==> st.State() == old(st.State()) && st.Owners() == old(st.Owners())
  {
    hide Store.Ok, Store.Deadlines, Store.Owners, Follows, Ready, Encode, Buffer.Contents, Buffer.Front, Ascii,
         A.Handle, A.ListsKeys, A.CmdIndex;
    KeysStay(st.State(), st.Owners(), st.State());
    ok, r := true, Err(ERR_UNKNOWN, Ascii("unknown command."));
    if cmd == [] {
      SayErr(st, out, ERR_UNKNOWN, "unknown command.");
      return;
    }
    var i := FindCmd(cmd[0]);
    if i == -1 {
      NotAborting(cmd, lib);
      SayErr(st, out, ERR_UNKNOWN, "unknown command.");
      return;
    }
    if |cmd| != A.CMD_TABLE[i].1 {
      NotAborting(cmd, lib);
      SayErr(st, out, ERR_UNKNOWN, "wrong number of arguments.");
      r := Err(ERR_UNKNOWN, Ascii("wrong number of arguments."));
      return;
    }
    AbortingIndex(cmd, lib, i);
    if i == 9 && lib.num(cmd[2]).Some? && lib.num(cmd[2]).value < 0 {
      assert out.Contents() + [] == out.Contents();
      return false, r;
    }
    r := RunCmd(st, lib, i, cmd, now, out);
  }

  lemma NotAborting(cmd: Command, lib: A.Library)
    requires cmd != [] && (A.CmdIndex(cmd[0], 0) == -1 || |cmd| != A.CMD_TABLE[A.CmdIndex(cmd[0], 0)].1)
    ensures !A.Aborts(cmd, lib)
  {
  }

  lemma AbortingIndex(cmd: Command, lib: A.Library, i: int)
    requires cmd != [] && i == A.CmdIndex(cmd[0], 0) && i != -1 && |cmd| == A.CMD_TABLE[i].1
    ensures A.Aborts(cmd, lib) <==> i == 9 && lib.num(cmd[2]).Some? && lib.num(cmd[2]).value < 0
  {
  }
}
