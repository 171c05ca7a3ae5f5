/** The array code of common/cmd_nvedit.c, proved against the list of module Environment. */
module EnvironmentStore {
  import opened Wrappers
  import opened Environment

  class Store {
    const data: array<char>
    ghost var vars: seq<Var>

    constructor (image: array<char>, ghost vs: seq<Var>)
      requires Holds(image[..], vs)
      ensures Valid() && data == image && vars == vs
    {
      data := image;
      vars := vs;
    }

    ghost predicate Valid()
      reads this, data
    {
      Holds(data[..], vars)
    }

    /** Compare the key s1 with the variable at index i2; the index of its value, or -1. */
    method EnvMatch(s1: string, i2: nat, ghost k: nat) returns (r: int)
      requires Valid() && NoNul(s1)
      requires k < |vars| && i2 == |Pack(vars[..k])|
      ensures r == if Stem(s1) == vars[k].name then i2 + |vars[k].name| + 1 else -1
    {
      Locate(data[..], vars, k);
      ghost var v := vars[k];
      var j := 0;
      while true
        invariant 0 <= j <= |s1| && j <= |v.name|
        invariant s1[..j] == v.name[..j]
        decreases |s1| - j
      {
        MatchStep(s1, v, j);
        var c, e := At(s1, j), data[i2 + j];
        assert e == data[..][i2 + j] == Text(v)[j];
        if c != e {
          if c == NUL && e == '=' {
            return i2 + j + 1;
          }
          return -1;
        }
        if c == '=' {
          return i2 + j + 1;
        }
        j := j + 1;
      }
    }

    /** The end of the text that starts at i, as the inner scanning loops find it. */
    method ScanText(i: nat, ghost k: nat) returns (nxt: nat)
      requires Valid() && k < |vars| && i == |Pack(vars[..k])|
      ensures nxt == i + |Text(vars[k])| && nxt + 1 < data.Length
      ensures nxt + 1 == |Pack(vars[..k + 1])|
    {
      Locate(data[..], vars, k);
      nxt := i;
      while data[nxt] != NUL
        invariant i <= nxt <= i + |Text(vars[k])| < data.Length
        decreases data.Length - nxt
      {
        nxt := nxt + 1;
      }
    }

    /** Search loop of _do_setenv and getenv: the variable the key names, the start of its
        text and of its value; oldval is -1 when there is none. */
    method Search(key: string) returns (env: nat, nxt: nat, oldval: int)
      requires Valid() && NoNul(key)
      ensures env == |Pack(vars[..Find(vars, Stem(key))])|
      ensures Find(vars, Stem(key)) == |vars| ==> oldval == -1
      ensures Find(vars, Stem(key)) < |vars| ==>
        var v := vars[Find(vars, Stem(key))];
        oldval == env + |v.name| + 1 && nxt == env + |Text(v)| && nxt + 1 < data.Length
    {
      env, nxt, oldval := 0, 0, -1;
      ghost var k: nat := 0;
      EntryOrEnd(data[..], vars, 0);
      while data[env] != NUL
        invariant k <= |vars| && env == |Pack(vars[..k])| < data.Length
        invariant data[env] == NUL <==> k == |vars|
        invariant oldval == -1
        invariant forall i :: 0 <= i < k ==> vars[i].name != Stem(key)
        decreases |vars| - k
      {
        nxt := ScanText(env, k);
        oldval := EnvMatch(key, env, k);
        if oldval >= 0 {
          FindIs(vars, Stem(key), k);
          return;
        }
        env := nxt + 1;
        k := k + 1;
        EntryOrEnd(data[..], vars, k);
      }
      FindIs(vars, Stem(key), k);
    }

    /** getenv: the value of the variable the key names. */
    method GetEnv(key: string) returns (r: Option<string>)
      requires Valid() && NoNul(key)
      ensures r == Lookup(vars, Stem(key))
    {
      ghost var k := Find(vars, Stem(key));
      var env, nxt, val := Search(key);
      if val < 0 {
        return None;
      }
      Locate(data[..], vars, k);
      ValueAt(data[..], vars, k);
      var value := CopyValue(val, nxt);
      r := Some(value);
    }

    /** The characters from an index up to the NUL that ends the text. */
    method CopyValue(val: nat, ghost nxt: nat) returns (value: string)
      requires val <= nxt < data.Length && data[nxt] == NUL
      requires forall i :: val <= i < nxt ==> data[i] != NUL
      ensures value == data[..][val..nxt]
    {
      var end := val;
      while data[end] != NUL
        invariant val <= end <= nxt
        decreases nxt - end
      {
        end := end + 1;
      }
      value := data[val..end];
    }

    /** The shifting loop of a deletion: the bytes t at `from`, which end with their first
        double NUL, move down to env. */
    method ShiftDown(env: nat, from: nat, ghost t: seq<char>)
      requires |t| > 0 && t[|t| - 1] == NUL
      requires forall j :: 0 <= j < |t| - 1 ==> t[j] != NUL || t[j + 1] != NUL
      requires env < from && from + |t| < data.Length
      requires Has(data[..], from, t) && data[from + |t|] == NUL
      modifies data
      ensures data[..env] == old(data[..env])
      ensures Has(data[..], env, t) && data[env + |t|] == NUL
    {
      var e, n := env, from;
      while true
        invariant env <= e && n - from == e - env < |t|
        invariant forall i :: 0 <= i < env ==> data[i] == old(data[i])
        invariant forall i :: 0 <= i < e - env ==> data[env + i] == t[i]
        invariant forall i :: n - from <= i < |t| ==> data[from + i] == t[i]
        invariant data[from + |t|] == NUL
        decreases |t| - (n - from)
      {
        ghost var m := e - env;
        assert data[from + m] == t[m];
        data[e] := data[n];
        n := n + 1;
        assert m + 1 < |t| ==> data[from + (m + 1)] == t[m + 1];
        if data[e] == NUL && data[n] == NUL {
          break;
        }
        e := e + 1;
      }
      data[e + 1] := NUL;
    }

    /** Take the text between env and nxt out of the array. */
    method CutText(env: nat, nxt: nat, ghost head: seq<Var>, ghost tail: seq<Var>)
      requires AllLegal(head) && AllLegal(tail)
      requires env == |Pack(head)| < nxt && nxt + 1 + |Pack(tail)| < data.Length
      requires Has(data[..], 0, Pack(head)) && Has(data[..], nxt + 1, Pack(tail))
      requires data[nxt + 1 + |Pack(tail)|] == NUL
      modifies data
      ensures Holds(data[..], head + tail)
    {
      if tail != [] {
        TailShape(tail);
        PackEnds(tail);
        assert data[..][nxt + 1 + 0] == Pack(tail)[0];
      }
      if data[nxt + 1] == NUL {
        DropLast(env);
      } else {
        ShiftDown(env, nxt + 1, Pack(tail));
      }
      assert forall i :: 0 <= i < env ==> data[i] == data[..env][i];
      HoldsHeadTail(data[..], head, tail);
    }

    /** Delete the variable whose text lies between env and nxt. */
    method Delete(env: nat, nxt: nat, ghost k: nat)
      requires Valid() && k < |vars|
      requires env == |Pack(vars[..k])| && nxt == env + |Text(vars[k])|
      modifies this`vars, data
      ensures Valid() && vars == old(vars[..k] + vars[k + 1..])
    {
      LocateTail(data[..], vars, k);
      CutText(env, nxt, vars[..k], vars[k + 1..]);
      vars := vars[..k] + vars[k + 1..];
    }

    /** Deletion of the last text: the list now ends where it began. */
    method DropLast(env: nat)
      requires env + 1 < data.Length
      modifies data
      ensures data[..env] == old(data[..env]) && data[env] == NUL
      ensures env == 0 ==> data[1] == NUL
    {
      if env > 0 {
        data[env] := NUL;
      } else {
        data[env] := NUL;
        data[env + 1] := NUL;
      }
    }

    /** The index at which a new text is appended. */
    method FindEnd() returns (env: nat)
      requires Valid()
      ensures env == |Pack(vars)| < data.Length && |Image(vars)| <= data.Length
    {
      ghost var im := Image(vars);
      LocateEnd(data[..], vars);
      assert Has(data[..], 0, im) by {
        assert data[..][..|im|] == im;
      }
      env := 0;
      DoubleNul(vars, 0);
      while data[env] != NUL || data[env + 1] != NUL
        invariant env <= |im| - 2
        invariant im[env] == NUL && im[env + 1] == NUL <==> env + 2 == |im|
        invariant env > 0 ==> vars != []
        decreases |im| - env
      {
        assert data[..][env] == im[env] && data[..][env + 1] == im[env + 1];
        env := env + 1;
        DoubleNul(vars, env);
      }
      assert data[..][env] == im[env] && data[..][env + 1] == im[env + 1];
      if env > 0 {
        env := env + 1;
      }
    }

    /** Copy a C string with its NUL. */
    method CopyString(at: nat, s: string)
      requires at + |s| < data.Length
      modifies data
      ensures forall i :: 0 <= i < at ==> data[i] == old(data[i])
      ensures Has(data[..], at, s) && data[at + |s|] == NUL
    {
      var j := 0;
      while j < |s|
        invariant j <= |s|
        invariant forall i :: 0 <= i < at ==> data[i] == old(data[i])
        invariant forall i :: 0 <= i < j ==> data[at + i] == s[i]
      {
        data[at + j] := s[j];
        j := j + 1;
      }
      data[at + |s|] := NUL;
    }

    /** Write one separator and one argument after the text w. */
    method WriteArg(pos: nat, ghost w: string, env: nat, sep: char, arg: string, ghost grown: string)
      requires env == pos + |w| && env + |arg| + 1 < data.Length
      requires Has(data[..], pos, w) && grown == w + [sep] + arg
      modifies data
      ensures forall i :: 0 <= i < pos ==> data[i] == old(data[i])
      ensures Has(data[..], pos, grown) && data[env + 1 + |arg|] == NUL
    {
      data[env] := sep;
      CopyString(env + 1, arg);
      forall j | 0 <= j < |grown|
        ensures data[pos + j] == grown[j]
      {
        if j < |w| {
          assert old(data[..])[pos + j] == w[j];
        } else if j > |w| {
          assert data[..][env + 1 + (j - |w| - 1)] == arg[j - |w| - 1];
        }
      }
    }

    /** Write the name and the arguments at pos; the index of the NUL behind them.
        texts[i] is the text after i arguments. */
    method WriteArgs(pos: nat, name: string, args: seq<string>, ghost texts: seq<string>) returns (env: nat)
      requires |texts| == |args| + 1 && texts[0] == name
      requires forall i :: 0 <= i < |args| ==> texts[i + 1] == texts[i] + [if i == 0 then '=' else ' '] + args[i]
      requires forall i :: 0 <= i < |texts| ==> pos + |texts[i]| + 2 <= data.Length
      modifies data
      ensures env == pos + |texts[|args|]| && data[env] == NUL
      ensures forall i :: 0 <= i < pos ==> data[i] == old(data[i])
      ensures Has(data[..], pos, texts[|args|])
    {
      CopyString(pos, name);
      env := pos + |name|;
      for i := 0 to |args|
        invariant env == pos + |texts[i]|
        invariant forall j :: 0 <= j < pos ==> data[j] == old(data[j])
        invariant Has(data[..], pos, texts[i]) && data[env] == NUL
      {
        WriteArg(pos, texts[i], env, if i == 0 then '=' else ' ', args[i], texts[i + 1]);
        env := env + 1 + |args[i]|;
      }
    }

    /** Write name=arg arg ... at pos, ending with a double NUL. */
    method WriteText(pos: nat, name: string, args: seq<string>)
      requires args != []
      requires pos + |Text(Var(name, Join(args)))| + 2 <= data.Length
      modifies data
      ensures forall i :: 0 <= i < pos ==> data[i] == old(data[i])
      ensures var t := Text(Var(name, Join(args)));
        Has(data[..], pos, t) && data[pos + |t|] == NUL && data[pos + |t| + 1] == NUL
    {
      ghost var texts := Texts(name, args);
      TextsLaws(name, args);
      var env := WriteArgs(pos, name, args, texts);
      data[env + 1] := NUL;
    }

    /** The length the overflow check compares. */
    method EntryLen(name: string, args: seq<string>) returns (len: nat)
      requires args != []
      ensures len == |Text(Var(name, Join(args)))| + 2
    {
      len := |name| + 2;
      for i := 0 to |args|
        invariant len == |name| + 2 + ArgsLen(args[..i])
      {
        assert args[..i + 1] == args[..i] + [args[i]];
        ArgsLenSnoc(args[..i], args[i]);
        len := len + |args[i]| + 1;
      }
      assert args[..|args|] == args;
      JoinLen(args);
    }

    /** The checks that keep an existing variable from being replaced. */
    method CheckReplace(name: string, args: seq<string>, accepts: bool) returns (refused: bool)
      ensures refused == Refused(name, args, accepts)
    {
      if name == "serial#" || name == "ethaddr" {
        return true;
      }
      var console := name == "stdin" || name == "stdout" || name == "stderr";
      if console {
        if args == [] {
          return true;
        }
        if !accepts {
          return true;
        }
      }
      return name == "baudrate" && !accepts;
    }

    /** Deletion part of _do_setenv. */
    method RemoveExisting(name: string, args: seq<string>, accepts: bool) returns (refused: bool)
      requires Valid() && NoNul(name) && '=' !in name
      modifies this`vars, data
      ensures Valid()
      ensures refused == (Find(old(vars), name) < |old(vars)| && Refused(name, args, accepts))
      ensures vars == if refused then old(vars) else Remove(old(vars), name)
    {
      WholeStem(name);
      ghost var k := Find(vars, name);
      var env, nxt, oldval := Search(name);
      refused := false;
      if oldval >= 0 {
        refused := CheckReplace(name, args, accepts);
        if !refused {
          Delete(env, nxt, k);
        }
      }
    }

    /** Appending part of _do_setenv, with its overflow check. */
    method Append(name: string, args: seq<string>) returns (rc: int)
      requires Valid() && Legal(Var(name, "")) && args != []
      requires forall i :: 0 <= i < |args| ==> NoNul(args[i])
      modifies this`vars, data
      ensures Valid()
      ensures var v := Var(name, Join(args));
        if |Pack(old(vars))| + |Text(v)| + 2 > data.Length then rc == 1 && vars == old(vars)
        else rc == 0 && vars == old(vars) + [v]
    {
      var pos := FindEnd();
      var len := EntryLen(name, args);
      if len > data.Length - pos {
        return 1;
      }
      ghost var v := Var(name, Join(args));
      JoinNoNul(args);
      PackHeld(data[..], vars);
      WriteText(pos, name, args);
      HoldsSnoc(data[..], vars, v);
      vars := vars + [v];
      return 0;
    }

    /** _do_setenv: replace, create or delete a variable. `accepts` is the answer of the
        console and of the line when the variable redirects them. */
    method SetEnv(name: string, args: seq<string>, accepts: bool) returns (rc: int)
      requires Valid() && NoNul(name)
      requires forall i :: 0 <= i < |args| ==> NoNul(args[i])
      modifies this`vars, data
      ensures Valid()
      ensures (vars, rc) == SetEnvSpec(old(vars), name, args, accepts, data.Length)
      ensures (name == "serial#" || name == "ethaddr") && Lookup(old(vars), name).Some? ==> rc == 1 && vars == old(vars)
    {
      if '=' in name {
        return 1;
      }
      var refused := RemoveExisting(name, args, accepts);
      if refused {
        return 1;
      }
      if args == [] {
        return 0;
      }
      rc := Append(name, args);
    }

    /** Any sequence of calls: the array then holds the list of the run. */
    method Execute(calls: seq<Call>)
      requires Valid() && forall i :: 0 <= i < |calls| ==> calls[i].WellFormed()
      modifies this`vars, data
      ensures Valid() && vars == Run(old(vars), calls, data.Length)
    {
      assert calls[0..] == calls;
      for i := 0 to |calls|
        invariant Valid() && Run(vars, calls[i..], data.Length) == Run(old(vars), calls, data.Length)
      {
        assert calls[i..][0] == calls[i] && calls[i..][1..] == calls[i + 1..];
        assert calls[i].WellFormed();
        var rc := SetEnv(calls[i].name, calls[i].args, calls[i].accepts);
      }
    }
  }

  lemma {:induction false} WholeStem(name: string)
    requires '=' !in name
    ensures Stem(name) == name
  {
    assert name[..|name|] == name;
    StemPrefix(name, |name|);
  }
}
