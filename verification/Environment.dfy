/** The environment store of common/cmd_nvedit.c: an ordered list of variables packed in
    place into one array as  name=value NUL ... NUL NUL.

    The first part defines the list and the operations on it; the second part is the
    packed layout. */
module Environment {
  import opened Wrappers

  /** One variable of the environment. */
  datatype Var = Var(name: string, value: string)

  const NUL := '\0'

  // ---------------------------------------------------------------- the ordered list

  predicate NoNul(s: string) { NUL !in s }

  predicate Legal(v: Var) { NoNul(v.name) && NoNul(v.value) && '=' !in v.name }

  predicate AllLegal(vs: seq<Var>) { forall i :: 0 <= i < |vs| ==> Legal(vs[i]) }

  predicate Distinct(vs: seq<Var>) {
    forall i, j :: 0 <= i < j < |vs| ==> vs[i].name != vs[j].name
  }

  /** The part of a search key that names a variable: `name` or `name=value`. */
  function Stem(s: string): (r: string) {
    if s == "" || s[0] == '=' then "" else [s[0]] + Stem(s[1..])
  }

  /** Index of the first variable with this name, or |vs|. */
  function Find(vs: seq<Var>, name: string): (k: nat)
    ensures k <= |vs|
    ensures k < |vs| ==> vs[k].name == name
    ensures forall i :: 0 <= i < k ==> vs[i].name != name
  {
    if vs == [] || vs[0].name == name then 0 else 1 + Find(vs[1..], name)
  }

  function Lookup(vs: seq<Var>, name: string): Option<string> {
    var k := Find(vs, name);
    if k < |vs| then Some(vs[k].value) else None
  }

  function Remove(vs: seq<Var>, name: string): seq<Var> {
    var k := Find(vs, name);
    if k < |vs| then vs[..k] + vs[k + 1..] else vs
  }

  /** All variables of other names, in order. */
  function Others(vs: seq<Var>, name: string): seq<Var> {
    if vs == [] then []
    else if vs[0].name == name then Others(vs[1..], name)
    else [vs[0]] + Others(vs[1..], name)
  }

  /** The arguments joined by single spaces. */
  function Join(args: seq<string>): string
    requires args != []
  {
    if |args| == 1 then args[0] else Join(args[..|args| - 1]) + " " + args[|args| - 1]
  }

  /** The room the arguments take with one separator in front of each. */
  function ArgsLen(args: seq<string>): nat {
    if args == [] then 0 else |args[0]| + 1 + ArgsLen(args[1..])
  }

  lemma {:induction false} ArgsLenSnoc(args: seq<string>, a: string)
    ensures ArgsLen(args + [a]) == ArgsLen(args) + |a| + 1
  {
    if args != [] {
      ArgsLenSnoc(args[1..], a);
      assert (args + [a])[1..] == args[1..] + [a];
    }
  }

  lemma {:induction false} JoinLen(args: seq<string>)
    requires args != []
    ensures |Join(args)| + 1 == ArgsLen(args)
  {
    var n := |args| - 1;
    assert args == args[..n] + [args[n]];
    ArgsLenSnoc(args[..n], args[n]);
    if n > 0 {
      JoinLen(args[..n]);
    }
  }

  lemma {:induction false} JoinNoNul(args: seq<string>)
    requires args != [] && forall i :: 0 <= i < |args| ==> NoNul(args[i])
    ensures NoNul(Join(args))
  {
    if |args| > 1 {
      JoinNoNul(args[..|args| - 1]);
    }
  }

  predicate WriteOnce(name: string) { name == "serial#" || name == "ethaddr" }

  predicate Console(name: string) { name == "stdin" || name == "stdout" || name == "stderr" }

  /** An existing variable may not be replaced: it is write-once, or the console or the
      line refused the change (`accepts` is their answer). */
  predicate Refused(name: string, args: seq<string>, accepts: bool) {
    || WriteOnce(name)
    || (Console(name) && (args == [] || !accepts))
    || (name == "baudrate" && !accepts)
  }

  /** What one setenv call does to the list, with its return code.
      `args` is empty when the call only deletes. */
  function SetEnvSpec(vs: seq<Var>, name: string, args: seq<string>, accepts: bool, size: nat): (seq<Var>, int) {
    if '=' in name then (vs, 1)
    else if Find(vs, name) < |vs| && Refused(name, args, accepts) then (vs, 1)
    else
      var rest := Remove(vs, name);
      if args == [] then (rest, 0)
      else
        var v := Var(name, Join(args));
        if |Pack(rest)| + |Text(v)| + 2 > size then (rest, 1) else (rest + [v], 0)
  }

  lemma FindIs(vs: seq<Var>, name: string, k: nat)
    requires k <= |vs| && (k < |vs| ==> vs[k].name == name) && forall i :: 0 <= i < k ==> vs[i].name != name
    ensures Find(vs, name) == k
  {}

  lemma {:induction false} NoneFound(vs: seq<Var>, name: string)
    requires forall i :: 0 <= i < |vs| ==> vs[i].name != name
    ensures Others(vs, name) == vs && Find(vs, name) == |vs|
  {
    if vs != [] {
      NoneFound(vs[1..], name);
      assert vs == [vs[0]] + vs[1..];
    }
  }

  lemma {:induction false} RemoveIsOthers(vs: seq<Var>, name: string)
    requires Distinct(vs)
    ensures Remove(vs, name) == Others(vs, name)
  {
    if vs == [] {
    } else if vs[0].name == name {
      NoneFound(vs[1..], name);
      assert vs[..0] + vs[1..] == vs[1..];
    } else {
      RemoveIsOthers(vs[1..], name);
      assert Find(vs, name) == 1 + Find(vs[1..], name);
      WithoutLater(vs, Find(vs[1..], name));
    }
  }

  lemma WithoutLater(vs: seq<Var>, k: nat)
    requires vs != [] && k <= |vs[1..]|
    ensures vs == [vs[0]] + vs[1..]
    ensures k < |vs[1..]| ==> vs[..k + 1] + vs[k + 2..] == [vs[0]] + (vs[1..][..k] + vs[1..][k + 1..])
  {}

  /** Filtering one name out leaves every other name alone. */
  lemma {:induction false} OthersKeep(vs: seq<Var>, name: string, other: string)
    ensures Lookup(Others(vs, name), other) == if name == other then None else Lookup(vs, other)
  {
    if vs != [] {
      OthersKeep(vs[1..], name, other);
      if vs[0].name != name {
        assert Others(vs, name)[1..] == Others(vs[1..], name);
      }
    }
  }

  lemma {:induction false} OthersShape(vs: seq<Var>, name: string)
    ensures Others(Others(vs, name), name) == Others(vs, name)
    ensures |Pack(Others(vs, name))| <= |Pack(vs)|
  {
    if vs != [] {
      OthersShape(vs[1..], name);
      if vs[0].name != name {
        assert Others(vs, name)[1..] == Others(vs[1..], name);
      }
    }
  }

  lemma CutSound(vs: seq<Var>, k: nat)
    requires AllLegal(vs) && Distinct(vs) && k < |vs|
    ensures AllLegal(vs[..k] + vs[k + 1..]) && Distinct(vs[..k] + vs[k + 1..])
  {
    var w := vs[..k] + vs[k + 1..];
    assert forall i :: 0 <= i < |w| ==> w[i] == vs[if i < k then i else i + 1];
  }

  lemma {:induction false} OthersSound(vs: seq<Var>, name: string, size: nat)
    requires Sound(vs, size)
    ensures Sound(Others(vs, name), size)
  {
    RemoveIsOthers(vs, name);
    OthersShape(vs, name);
    var k := Find(vs, name);
    if k < |vs| {
      CutSound(vs, k);
    }
  }

  lemma {:induction false} SnocSound(vs: seq<Var>, v: Var, size: nat)
    requires Sound(vs, size) && Legal(v) && Find(vs, v.name) == |vs|
    requires |Pack(vs)| + |Text(v)| + 2 <= size
    ensures Sound(vs + [v], size)
  {
    PackConcat(vs, [v]);
    assert Pack([v]) == Text(v) + [NUL] + Pack([]);
  }

  lemma {:induction false} SnocLaws(vs: seq<Var>, v: Var, other: string)
    ensures Others(vs + [v], v.name) == Others(vs, v.name)
    ensures Lookup(vs, v.name) == None ==> Lookup(vs + [v], v.name) == Some(v.value)
    ensures v.name != other ==> Lookup(vs + [v], other) == Lookup(vs, other)
  {
    if vs != [] {
      SnocLaws(vs[1..], v, other);
      assert (vs + [v])[1..] == vs[1..] + [v];
    }
  }
  /** The environment as it is at every moment: legal, distinct names, within the array. */
  predicate Sound(vs: seq<Var>, size: nat) {
    AllLegal(vs) && Distinct(vs) && |Image(vs)| <= size
  }

  predicate Overflow(vs: seq<Var>, name: string, args: seq<string>, size: nat)
    requires args != []
  {
    |Pack(Others(vs, name))| + |Text(Var(name, Join(args)))| + 2 > size
  }

  /** One setenv call as a change of an ordered map. A variable that is there is not replaced
      when it is `serial#` or `ethaddr`, when a console variable would be deleted or its device
      is refused, or when the rate of `baudrate` is not supported; every other is. */
  lemma {:induction false} SetEnvMeaning(vs: seq<Var>, name: string, args: seq<string>, accepts: bool, size: nat)
    requires Sound(vs, size) && NoNul(name)
    requires forall i :: 0 <= i < |args| ==> NoNul(args[i])
    ensures var (after, rc) := SetEnvSpec(vs, name, args, accepts, size);
      var kept :=
        || name == "serial#" || name == "ethaddr"
        || ((name == "stdin" || name == "stdout" || name == "stderr") && (args == [] || !accepts))
        || (name == "baudrate" && !accepts);
      var refused := '=' in name || (Lookup(vs, name).Some? && kept);
      && Sound(after, size)
      && Others(after, name) == Others(vs, name)
      && (refused ==> rc == 1 && after == vs)
      && (!refused && args == [] ==> rc == 0 && after == Others(vs, name))
      && (!refused && args != [] && Overflow(vs, name, args, size) ==> rc == 1 && after == Others(vs, name))
      && (!refused && args != [] && !Overflow(vs, name, args, size) ==>
            rc == 0 && after == Others(vs, name) + [Var(name, Join(args))] && Lookup(after, name) == Some(Join(args)))
  {
    RemoveIsOthers(vs, name);
    OthersSound(vs, name, size);
    OthersShape(vs, name);
    OthersKeep(vs, name, name);
    var rest := Others(vs, name);
    if args != [] {
      var v := Var(name, Join(args));
      JoinNoNul(args);
      SnocLaws(rest, v, name);
      if '=' !in name && !Overflow(vs, name, args, size) {
        SnocSound(rest, v, size);
      }
    }
  }

  /** A call about one name never changes what another name means. */
  lemma {:induction false} SetEnvFrame(vs: seq<Var>, name: string, args: seq<string>, accepts: bool, size: nat, other: string)
    requires Distinct(vs) && name != other
    ensures Lookup(SetEnvSpec(vs, name, args, accepts, size).0, other) == Lookup(vs, other)
  {
    RemoveIsOthers(vs, name);
    OthersKeep(vs, name, other);
    if args != [] {
      SnocLaws(Others(vs, name), Var(name, Join(args)), other);
    }
  }

  /** A setenv call of a run. */
  datatype Call = Call(name: string, args: seq<string>, accepts: bool) {
    predicate WellFormed() { NoNul(name) && forall i :: 0 <= i < |args| ==> NoNul(args[i]) }
  }

  function Run(vs: seq<Var>, calls: seq<Call>, size: nat): seq<Var>
    decreases |calls|
  {
    if calls == [] then vs
    else Run(SetEnvSpec(vs, calls[0].name, calls[0].args, calls[0].accepts, size).0, calls[1..], size)
  }

  /** Over any run: the layout stays sound, `serial#` and `ethaddr` keep the value they have,
      and a name no call mentions keeps its meaning. */
  lemma {:induction false} RunSafety(vs: seq<Var>, calls: seq<Call>, size: nat, name: string)
    requires Sound(vs, size) && forall i :: 0 <= i < |calls| ==> calls[i].WellFormed()
    ensures Sound(Run(vs, calls, size), size)
    ensures (name == "serial#" || name == "ethaddr") && Lookup(vs, name).Some? ==>
              Lookup(Run(vs, calls, size), name) == Lookup(vs, name)
    ensures (forall i :: 0 <= i < |calls| ==> calls[i].name != name) ==>
              Lookup(Run(vs, calls, size), name) == Lookup(vs, name)
    decreases |calls|
  {
    if calls != [] {
      var c := calls[0];
      SetEnvMeaning(vs, c.name, c.args, c.accepts, size);
      if c.name != name {
        SetEnvFrame(vs, c.name, c.args, c.accepts, size, name);
      }
      RunSafety(SetEnvSpec(vs, c.name, c.args, c.accepts, size).0, calls[1..], size, name);
    }
  }

  // ---------------------------------------------------------------- the packed layout

  function Text(v: Var): (t: string)
    ensures t != ""
  {
    v.name + "=" + v.value
  }

  function Pack(vs: seq<Var>): string {
    if vs == [] then "" else Text(vs[0]) + [NUL] + Pack(vs[1..])
  }

  /** The whole image: every text with its NUL, then one more NUL; two NULs when empty. */
  function Image(vs: seq<Var>): string {
    if vs == [] then [NUL, NUL] else Pack(vs) + [NUL]
  }

  /** The image of one variable after another, character by character. */
  lemma ImageText(v: Var, vs: seq<Var>)
    ensures Image([]) == "\0\0" && Image([v]) == v.name + "=" + v.value + "\0\0"
    ensures vs != [] ==> Image([v] + vs) == v.name + "=" + v.value + "\0" + Image(vs)
  {
    assert [v][1..] == [] && ([v] + vs)[1..] == vs;
    assert Pack([v]) == Text(v) + [NUL] + "";
  }

  predicate Holds(d: seq<char>, vs: seq<Var>) { AllLegal(vs) && Image(vs) <= d }

  lemma Assoc(x: string, y: string, z: string)
    ensures x + (y + z) == (x + y) + z
  {}

  lemma {:induction false} PackConcat(a: seq<Var>, b: seq<Var>)
    ensures Pack(a + b) == Pack(a) + Pack(b)
  {
    if a == [] {
      assert a + b == b;
    } else {
      PackConcat(a[1..], b);
      assert (a + b)[1..] == a[1..] + b;
      Assoc(Text(a[0]) + [NUL], Pack(a[1..]), Pack(b));
    }
  }

  lemma {:induction false} PackSnoc(vs: seq<Var>, k: nat)
    requires k < |vs|
    ensures Pack(vs[..k + 1]) == Pack(vs[..k]) + (Text(vs[k]) + [NUL])
  {
    assert vs[..k + 1] == vs[..k] + [vs[k]];
    PackConcat(vs[..k], [vs[k]]);
    assert Pack([vs[k]]) == Text(vs[k]) + [NUL] + Pack([]);
  }

  lemma {:induction false} PackSplit(vs: seq<Var>, k: nat)
    requires k < |vs|
    ensures Pack(vs) == Pack(vs[..k]) + (Text(vs[k]) + [NUL]) + Pack(vs[k + 1..])
  {
    assert vs == vs[..k + 1] + vs[k + 1..];
    PackConcat(vs[..k + 1], vs[k + 1..]);
    PackSnoc(vs, k);
  }

  /** Two NULs in a row occur in an image only at its end. */
  lemma {:induction false} NoDoubleNul(vs: seq<Var>, j: nat)
    requires AllLegal(vs)
    requires j + 1 < |Pack(vs)|
    ensures Pack(vs)[j] != NUL || Pack(vs)[j + 1] != NUL
  {
    var n := |Text(vs[0])|;
    if j > n {
      NoDoubleNul(vs[1..], j - n - 1);
    } else if j == n {
      PackEnds(vs[1..]);
      assert Pack(vs)[n + 1] == Pack(vs[1..])[0];
    } else {
      assert Pack(vs)[j] == Text(vs[0])[j];
    }
  }

  lemma {:induction false} DoubleNul(vs: seq<Var>, j: nat)
    requires AllLegal(vs) && j + 1 < |Image(vs)|
    ensures Image(vs)[j] == NUL && Image(vs)[j + 1] == NUL <==> j + 2 == |Image(vs)|
    ensures vs != [] ==> |Image(vs)| > 2
  {
    if vs != [] {
      PackEnds(vs);
      if j + 1 < |Pack(vs)| {
        NoDoubleNul(vs, j);
      }
    }
  }

  lemma {:induction false} PackEnds(vs: seq<Var>)
    requires AllLegal(vs) && vs != []
    ensures |Pack(vs)| >= 2 && Pack(vs)[0] != NUL && Pack(vs)[|Pack(vs)| - 1] == NUL
  {
    assert Pack(vs)[0] == Text(vs[0])[0];
    if |vs| > 1 {
      PackEnds(vs[1..]);
    }
  }

  /** The text after i arguments have been written. */
  function TextSoFar(name: string, args: seq<string>, i: nat): string
    requires i <= |args|
  {
    if i == 0 then name else Text(Var(name, Join(args[..i])))
  }

  lemma {:induction false} TextStep(name: string, args: seq<string>, i: nat)
    requires i < |args|
    ensures TextSoFar(name, args, i + 1) == TextSoFar(name, args, i) + [if i == 0 then '=' else ' '] + args[i]
  {
    assert args[..i + 1][..i] == args[..i];
  }

  lemma {:induction false} TextRoom(name: string, args: seq<string>, i: nat)
    requires i <= |args|
    ensures |TextSoFar(name, args, i)| <= |TextSoFar(name, args, |args|)|
    decreases |args| - i
  {
    if i < |args| {
      TextStep(name, args, i);
      TextRoom(name, args, i + 1);
    }
  }

  function Texts(name: string, args: seq<string>): seq<string> {
    seq(|args| + 1, i requires 0 <= i < |args| + 1 => TextSoFar(name, args, i))
  }

  lemma {:induction false} TextsLaws(name: string, args: seq<string>)
    requires args != []
    ensures var ts := Texts(name, args);
      && ts[0] == name && ts[|args|] == Text(Var(name, Join(args)))
      && (forall i :: 0 <= i < |args| ==> ts[i + 1] == ts[i] + [if i == 0 then '=' else ' '] + args[i])
      && (forall i :: 0 <= i < |ts| ==> |ts[i]| <= |ts[|args|]|)
  {
    assert args[..|args|] == args;
    forall i | 0 <= i <= |args|
      ensures |TextSoFar(name, args, i)| <= |TextSoFar(name, args, |args|)|
    {
      TextRoom(name, args, i);
    }
    forall i | 0 <= i < |args|
      ensures TextSoFar(name, args, i + 1) == TextSoFar(name, args, i) + [if i == 0 then '=' else ' '] + args[i]
    {
      TextStep(name, args, i);
    }
  }

  /** Array d has the text t at index p. */
  predicate Has(d: seq<char>, p: nat, t: seq<char>) {
    p + |t| <= |d| && forall i :: 0 <= i < |t| ==> d[p + i] == t[i]
  }

  lemma HasParts(d: seq<char>, x: string, y: string, z: string)
    requires x + y + z <= d
    ensures Has(d, 0, x) && Has(d, |x|, y) && Has(d, |x| + |y|, z)
  {
    var w := x + y + z;
    assert forall i :: 0 <= i < |w| ==> d[i] == w[i];
    assert forall i :: 0 <= i < |y| ==> w[|x| + i] == y[i];
    assert forall i :: 0 <= i < |z| ==> w[|x| + |y| + i] == z[i];
  }

  /** What precedes variable k in the array, its own text, and what follows. */
  lemma {:induction false} LocateParts(d: seq<char>, vs: seq<Var>, k: nat)
    requires Holds(d, vs) && k < |vs|
    ensures var p := |Pack(vs[..k])|; var t := Text(vs[k]) + [NUL];
      && Has(d, 0, Pack(vs[..k])) && Has(d, p, t)
      && Has(d, p + |t|, Pack(vs[k + 1..]) + [NUL])
  {
    PackSplit(vs, k);
    var x, y, z := Pack(vs[..k]), Text(vs[k]) + [NUL], Pack(vs[k + 1..]);
    Assoc(x + y, z, [NUL]);
    HasParts(d, x, y, z + [NUL]);
  }

  /** Where variable k lies in an array that holds vs. */
  lemma {:induction false} Locate(d: seq<char>, vs: seq<Var>, k: nat)
    requires Holds(d, vs) && k < |vs|
    ensures var p := |Pack(vs[..k])|; var n := |Text(vs[k])|;
      && p + n + 1 < |d|
      && Has(d, p, Text(vs[k])) && d[p + n] == NUL
      && |Pack(vs[..k + 1])| == p + n + 1
      && (forall i :: p <= i < p + n ==> d[i] != NUL)
  {
    PackSnoc(vs, k);
    LocateParts(d, vs, k);
    HasText(d, |Pack(vs[..k])|, Text(vs[k]));
  }

  lemma HasText(d: seq<char>, p: nat, t: string)
    requires Has(d, p, t + [NUL]) && NUL !in t
    ensures Has(d, p, t) && d[p + |t|] == NUL
    ensures forall i :: p <= i < p + |t| ==> d[i] != NUL
  {
    var u := t + [NUL];
    assert u[|t|] == NUL && forall i :: 0 <= i < |t| ==> u[i] == t[i];
    forall i | p <= i < p + |t|
      ensures d[i] != NUL
    {
      assert d[p + (i - p)] == t[i - p];
    }
  }

  lemma {:induction false} LocateEnd(d: seq<char>, vs: seq<Var>)
    requires Holds(d, vs)
    ensures |Pack(vs)| < |d| && d[|Pack(vs)|] == NUL && |Image(vs)| <= |d|
  {
    assert d[..|Image(vs)|] == Image(vs);
    assert Image(vs)[|Pack(vs)|] == NUL;
  }

  /** An entry position holds a NUL exactly when it is the end of the list. */
  lemma {:induction false} EntryOrEnd(d: seq<char>, vs: seq<Var>, k: nat)
    requires Holds(d, vs) && k <= |vs|
    ensures |Pack(vs[..k])| < |d|
    ensures d[|Pack(vs[..k])|] == NUL <==> k == |vs|
  {
    if k == |vs| {
      assert vs[..k] == vs;
      LocateEnd(d, vs);
    } else {
      Locate(d, vs, k);
    }
  }

  /** The value part of a text. */
  lemma {:induction false} ValueAt(d: seq<char>, vs: seq<Var>, k: nat)
    requires Holds(d, vs) && k < |vs|
    ensures var p := |Pack(vs[..k])|; var n := |Text(vs[k])|; var q := p + |vs[k].name| + 1;
      p + n < |d| && q <= p + n && d[q..p + n] == vs[k].value
  {
    Locate(d, vs, k);
    ValuePart(d, |Pack(vs[..k])|, vs[k]);
  }

  lemma ValuePart(d: seq<char>, p: nat, v: Var)
    requires Has(d, p, Text(v))
    ensures d[p + |v.name| + 1..p + |Text(v)|] == v.value
  {
    var n, m := |Text(v)|, |v.name| + 1;
    assert d[p..p + n] == Text(v);
    assert d[p + m..p + n] == d[p..p + n][m..];
    assert Text(v)[m..] == v.value;
  }

  lemma {:induction false} TailShape(vs: seq<Var>)
    requires AllLegal(vs) && vs != []
    ensures var t := Pack(vs);
      |t| > 0 && t[|t| - 1] == NUL && forall j :: 0 <= j < |t| - 1 ==> t[j] != NUL || t[j + 1] != NUL
  {
    PackEnds(vs);
    forall j | 0 <= j < |Pack(vs)| - 1
      ensures Pack(vs)[j] != NUL || Pack(vs)[j + 1] != NUL
    {
      NoDoubleNul(vs, j);
    }
  }

  lemma {:induction false} LocateTail(d: seq<char>, vs: seq<Var>, k: nat)
    requires Holds(d, vs) && k < |vs|
    ensures var p := |Pack(vs[..k])|; var q := p + |Text(vs[k])| + 1; var t := Pack(vs[k + 1..]);
      q + |t| < |d| && Has(d, 0, Pack(vs[..k])) && Has(d, q, t) && d[q + |t|] == NUL
  {
    LocateParts(d, vs, k);
    var t := Pack(vs[k + 1..]);
    assert (t + [NUL])[|t|] == NUL;
    assert forall i :: 0 <= i < |t| ==> (t + [NUL])[i] == t[i];
  }

  /** An array that starts with two packed lists and a NUL holds their concatenation. */
  lemma {:induction false} HoldsHeadTail(d: seq<char>, head: seq<Var>, tail: seq<Var>)
    requires AllLegal(head) && AllLegal(tail)
    requires Has(d, 0, Pack(head)) && Has(d, |Pack(head)|, Pack(tail))
    requires var n := |Pack(head)| + |Pack(tail)|; n < |d| && d[n] == NUL && (n == 0 ==> |d| > 1 && d[1] == NUL)
    ensures Holds(d, head + tail)
  {
    PackConcat(head, tail);
    TwoTexts(d, Pack(head), Pack(tail));
    if head + tail == [] {
      assert d[..2] == [NUL, NUL];
    }
  }

  lemma TwoTexts(d: seq<char>, x: string, y: string)
    requires Has(d, 0, x) && Has(d, |x|, y) && |x| + |y| < |d| && d[|x| + |y|] == NUL
    ensures x + y + [NUL] <= d
  {
    var p, n := |x|, |x| + |y|;
    assert d[..p] == x;
    assert d[p..n] == y;
    assert d[..n] == d[..p] + d[p..n];
    assert d[..n + 1] == d[..n] + [NUL];
  }

  lemma {:induction false} PackHeld(d: seq<char>, vs: seq<Var>)
    requires Holds(d, vs)
    ensures Has(d, 0, Pack(vs))
  {
    var im := Image(vs);
    assert d[..|im|] == im;
    assert forall i :: 0 <= i < |Pack(vs)| ==> im[i] == Pack(vs)[i];
  }

  lemma {:induction false} HoldsSnoc(d: seq<char>, vs: seq<Var>, v: Var)
    requires AllLegal(vs) && Legal(v)
    requires Has(d, 0, Pack(vs)) && Has(d, |Pack(vs)|, Text(v))
    requires var n := |Pack(vs)| + |Text(v)|; n + 1 < |d| && d[n] == NUL && d[n + 1] == NUL
    ensures Holds(d, vs + [v])
  {
    assert Pack([v]) == Text(v) + [NUL] + Pack([]);
    assert Has(d, |Pack(vs)|, Pack([v]));
    HoldsHeadTail(d, vs, [v]);
  }

  lemma {:induction false} StemPrefix(s: string, j: nat)
    requires j <= |s| && '=' !in s[..j]
    ensures j <= |Stem(s)| && Stem(s)[..j] == s[..j]
    ensures j == |s| || s[j] == '=' ==> Stem(s) == s[..j]
    ensures j < |s| && s[j] != '=' ==> j < |Stem(s)| && Stem(s)[j] == s[j]
  {
    if j == 0 {
    } else {
      assert s[..j][0] == s[0];
      assert s[1..][..j - 1] == s[..j][1..];
      StemPrefix(s[1..], j - 1);
      assert s[..j] == [s[0]] + s[1..][..j - 1];
    }
  }

  lemma {:induction false} TextInjective(u: Var, v: Var)
    requires Legal(u) && Legal(v) && Text(u) == Text(v)
    ensures u == v
  {
    assert Text(u)[|u.name|] == '=' && Text(v)[|v.name|] == '=';
    assert forall i :: 0 <= i < |u.name| ==> Text(u)[i] == u.name[i] && Text(u)[i] in u.name;
    assert forall i :: 0 <= i < |v.name| ==> Text(v)[i] == v.name[i] && Text(v)[i] in v.name;
    assert u.name == Text(u)[..|u.name|] && v.name == Text(v)[..|v.name|];
    assert u.value == Text(u)[|u.name| + 1..] && v.value == Text(v)[|v.name| + 1..];
  }

  lemma {:induction false} SameFirstText(d: seq<char>, s: string, t: string)
    requires NoNul(s) && NoNul(t) && s + [NUL] <= d && t + [NUL] <= d
    ensures s == t
  {
    assert d[|s|] == (s + [NUL])[|s|] && d[|t|] == (t + [NUL])[|t|];
    assert forall i :: 0 <= i < |s| ==> d[i] == (s + [NUL])[i] && d[i] in s;
    assert forall i :: 0 <= i < |t| ==> d[i] == (t + [NUL])[i] && d[i] in t;
    assert s == d[..|s|] && t == d[..|t|];
  }

  lemma {:induction false} FirstChar(d: seq<char>, a: seq<Var>)
    requires AllLegal(a) && Pack(a) + [NUL] <= d
    ensures d[0] == NUL <==> a == []
  {
    assert d[0] == (Pack(a) + [NUL])[0];
    if a != [] {
      PackEnds(a);
    }
  }

  lemma {:induction false} PackTail(d: seq<char>, a: seq<Var>)
    requires a != [] && Pack(a) + [NUL] <= d
    ensures Text(a[0]) + [NUL] <= d && Pack(a[1..]) + [NUL] <= d[|Text(a[0])| + 1..]
  {
    var t, rest := Text(a[0]) + [NUL], Pack(a[1..]) + [NUL];
    assert Pack(a) + [NUL] == t + rest;
    assert d[..|t| + |rest|] == t + rest;
    assert d[..|t|] == d[..|t| + |rest|][..|t|];
    assert d[|t|..][..|rest|] == d[..|t| + |rest|][|t|..];
  }

  lemma {:induction false} PackUnambiguous(d: seq<char>, a: seq<Var>, b: seq<Var>)
    requires AllLegal(a) && AllLegal(b) && Pack(a) + [NUL] <= d && Pack(b) + [NUL] <= d
    ensures a == b
  {
    FirstChar(d, a);
    FirstChar(d, b);
    if a != [] {
      var s, t := Text(a[0]), Text(b[0]);
      PackTail(d, a);
      PackTail(d, b);
      SameFirstText(d, s, t);
      TextInjective(a[0], b[0]);
      PackUnambiguous(d[|s| + 1..], a[1..], b[1..]);
      assert a == [a[0]] + a[1..] && b == [b[0]] + b[1..];
    }
  }

  /** The layout is unambiguous: an array holds at most one list. */
  lemma {:induction false} HoldsUnique(d: seq<char>, a: seq<Var>, b: seq<Var>)
    requires Holds(d, a) && Holds(d, b)
    ensures a == b
  {
    assert Pack(a) + [NUL] <= Image(a) && Pack(b) + [NUL] <= Image(b);
    PackUnambiguous(d, a, b);
  }

  /** The character at index j of a C string. */
  function At(s: string, j: nat): char
    requires j <= |s|
  {
    if j < |s| then s[j] else NUL
  }

  /** The three ways one comparison step of envmatch can end. */
  lemma {:induction false} MatchStep(s1: string, v: Var, j: nat)
    requires Legal(v) && NoNul(s1)
    requires j <= |s1| && j <= |v.name| && s1[..j] == v.name[..j]
    ensures var c := At(s1, j); var e := Text(v)[j];
      if e == '=' && (c == e || c == NUL) then Stem(s1) == v.name && j == |v.name|
      else if c != e then Stem(s1) != v.name
      else j < |s1| && j < |v.name| && s1[..j + 1] == v.name[..j + 1]
  {
    var c, e := At(s1, j), Text(v)[j];
    assert '=' !in v.name[..j];
    StemPrefix(s1, j);
    if j < |v.name| {
      assert e == v.name[j] && e in v.name;
      if c != e {
        assert v.name[..j + 1][j] == e;
      } else {
        assert s1[..j + 1] == s1[..j] + [c];
        assert v.name[..j + 1] == v.name[..j] + [e];
      }
    } else {
      assert e == '=';
      assert v.name[..j] == v.name;
    }
  }
}
