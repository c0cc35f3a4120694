/**
 * `cn`, the class-name combiner: the truthy arguments, in order, joined by
 * single spaces.
 */
module ClassNames {

  /** One argument of `cn`: a string, or one of the falsy non-strings its signature admits. */
  datatype ClassValue = Str(s: string) | Undefined | Null | False

  /** `Boolean(v)`: of the admitted values only a non-empty string is truthy. */
  predicate Truthy(v: ClassValue)
  {
    v.Str? && v.s != ""
  }

  /** `classes.filter(Boolean)`: the kept strings. */
  function Kept(args: seq<ClassValue>): (r: seq<string>)
    ensures |r| <= |args|
    ensures forall k :: 0 <= k < |r| ==> r[k] != ""
  {
    if |args| == 0 then []
    else (if Truthy(args[0]) then [args[0].s] else []) + Kept(args[1..])
  }

  /** `parts.join(' ')`. */
  function Join(parts: seq<string>): string
  {
    if |parts| == 0 then ""
    else if |parts| == 1 then parts[0]
    else parts[0] + " " + Join(parts[1..])
  }

  /** `cn(...classes)`. */
  function Cn(args: seq<ClassValue>): string
  {
    Join(Kept(args))
  }

  /** `s.split(' ')`, the inverse of `Join` on parts that hold no space. */
  function Split(s: string): (r: seq<string>)
    ensures |r| >= 1
  {
    if |s| == 0 then [""]
    else if s[0] == ' ' then [""] + Split(s[1..])
    else
      var rest := Split(s[1..]);
      [[s[0]] + rest[0]] + rest[1..]
  }

  function TotalLength(parts: seq<string>): nat
  {
    if |parts| == 0 then 0 else |parts[0]| + TotalLength(parts[1..])
  }

  /** Filtering distributes over concatenation: the kept strings keep their order. */
  lemma {:induction false} KeptConcat(a: seq<ClassValue>, b: seq<ClassValue>)
    ensures Kept(a + b) == Kept(a) + Kept(b)
  {
    if |a| > 0 {
      assert (a + b)[1..] == a[1..] + b;
      KeptConcat(a[1..], b);
    } else {
      assert a + b == b;
    }
  }

  /** A falsy argument (`undefined`, `null`, `false`, `""`) contributes nothing, not even a separator. */
  lemma CnIgnoresFalsy(a: seq<ClassValue>, v: ClassValue, b: seq<ClassValue>)
    requires !Truthy(v)
    ensures Cn(a + [v] + b) == Cn(a + b)
  {
    assert Kept([v]) == [] by {
      assert [v][1..] == [];
    }
    KeptConcat(a + [v], b);
    KeptConcat(a, [v]);
    KeptConcat(a, b);
    assert Kept(a + [v] + b) == Kept(a + b);
  }


  /** Exactly the non-empty string arguments are kept. */
  lemma {:induction false} KeptMembers(args: seq<ClassValue>, x: string)
    ensures x in Kept(args) <==> x != "" && exists i :: 0 <= i < |args| && args[i] == Str(x)
  {
    if |args| > 0 {
      KeptMembers(args[1..], x);
      if x in Kept(args[1..]) {
        var i :| 0 <= i < |args[1..]| && args[1..][i] == Str(x);
        assert args[i + 1] == Str(x);
      }
      if x != "" && exists i :: 0 <= i < |args| && args[i] == Str(x) {
        var i :| 0 <= i < |args| && args[i] == Str(x);
        if i > 0 {
          assert args[1..][i - 1] == Str(x);
        }
      }
    }
  }

  /** No truthy argument: the result is the empty string. */
  lemma {:induction false} CnAllFalsy(args: seq<ClassValue>)
    requires forall i :: 0 <= i < |args| ==> !Truthy(args[i])
    ensures Cn(args) == ""
  {
    if |args| > 0 {
      CnAllFalsy(args[1..]);
    }
  }

  /** A single truthy argument is returned unchanged. */
  lemma CnSingle(args: seq<ClassValue>, k: nat)
    requires k < |args| && Truthy(args[k])
    requires forall i :: 0 <= i < |args| && i != k ==> !Truthy(args[i])
    ensures Cn(args) == args[k].s
  {
    assert args == args[..k] + [args[k]] + args[k + 1..];
    KeptConcat(args[..k] + [args[k]], args[k + 1..]);
    KeptConcat(args[..k], [args[k]]);
    CnAllFalsy(args[..k]);
    CnAllFalsy(args[k + 1..]);
    assert Kept([args[k]]) == [args[k].s] by {
      assert [args[k]][1..] == [];
    }
  }

  lemma {:induction false} JoinLength(parts: seq<string>)
    requires |parts| >= 1
    ensures |Join(parts)| == TotalLength(parts) + |parts| - 1
  {
    if |parts| > 1 {
      JoinLength(parts[1..]);
    }
  }

  /** With k >= 1 kept strings, the length is their total length plus k - 1 separators. */
  lemma CnLength(args: seq<ClassValue>)
    requires |Kept(args)| >= 1
    ensures |Cn(args)| == TotalLength(Kept(args)) + |Kept(args)| - 1
  {
    JoinLength(Kept(args));
  }

  lemma {:induction false} SplitNoSpace(a: string)
    requires ' ' !in a
    ensures Split(a) == [a]
  {
    if |a| > 0 {
      assert a[0] != ' ';
      SplitNoSpace(a[1..]);
      assert [a[0]] + a[1..] == a;
    }
  }

  lemma {:induction false} SplitAtFirstSpace(a: string, t: string)
    requires ' ' !in a
    ensures Split(a + " " + t) == [a] + Split(t)
  {
    if |a| == 0 {
      assert a + " " + t == [' '] + t;
    } else {
      assert a[0] != ' ';
      assert (a + " " + t)[0] == a[0];
      assert (a + " " + t)[1..] == a[1..] + " " + t;
      SplitAtFirstSpace(a[1..], t);
      assert [a[0]] + a[1..] == a;
    }
  }

  lemma {:induction false} SplitJoin(parts: seq<string>)
    requires |parts| >= 1
    requires forall k :: 0 <= k < |parts| ==> ' ' !in parts[k]
    ensures Split(Join(parts)) == parts
  {
    if |parts| == 1 {
      SplitNoSpace(parts[0]);
    } else {
      SplitJoin(parts[1..]);
      SplitAtFirstSpace(parts[0], Join(parts[1..]));
    }
  }

  /**
   * Round trip: when at least one argument is kept and no kept string holds a
   * space, splitting the result on spaces gives back exactly the kept strings.
   */
  lemma CnSplitRoundTrip(args: seq<ClassValue>)
    requires |Kept(args)| >= 1
    requires forall k :: 0 <= k < |Kept(args)| ==> ' ' !in Kept(args)[k]
    ensures Split(Cn(args)) == Kept(args)
  {
    SplitJoin(Kept(args));
  }
}
