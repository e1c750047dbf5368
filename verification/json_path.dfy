/**
 * `GetProperty` and `SetProperty` (Scripts/atomEditor.js:81-105): a
 * dot-separated path walked through a parsed JSON value with `obj[key]`,
 * under the file's `"use strict"`. Values are trees, as `JSON.parse` builds
 * them, so writing through the path is modelled by rebuilding the nodes on
 * it.
 */
module JsonPath {
  import opened Bytes
  import opened Wrappers
  import opened ArrayIndex

  /** A JavaScript value as found in parsed JSON, plus `undefined`. */
  datatype Json =
    | Undefined
    | Null
    | Bool(b: bool)
    | Number(n: int)
    | Str(s: JsString)
    | Array(items: seq<Json>)
    | Object(fields: map<JsString, Json>)

  /** Why a walk stopped. */
  datatype PathError =
    | TypeError    // reading a property of `undefined` or `null`, or writing one on a primitive
    | NotModelled  // writing a named property, `length` included, on an array

  /** The code unit of '.', the path separator. */
  const DOT: CodeUnit := 0x2E

  /** The key "length". */
  const LENGTH: JsString := [0x6C, 0x65, 0x6E, 0x67, 0x74, 0x68]

  /**
   * `obj[key]`: an own field of an object, or `undefined`; an element of an
   * array or a one-unit string of a string at an index key, or their
   * `length`; `undefined` on other primitives; a `TypeError` on `undefined`
   * and `null`.
   */
  function Lookup(v: Json, key: JsString): Result<Json, PathError> {
    match v
    case Undefined => Failure(TypeError)
    case Null => Failure(TypeError)
    case Object(fields) => Success(if key in fields then fields[key] else Undefined)
    case Array(items) =>
      Success(match ParseIndex(key)
              case Some(i) => if i < |items| then items[i] else Undefined
              case None => if key == LENGTH then Number(|items|) else Undefined)
    case Str(s) =>
      Success(match ParseIndex(key)
              case Some(i) => if i < |s| then Str([s[i]]) else Undefined
              case None => if key == LENGTH then Number(|s|) else Undefined)
    case _ => Success(Undefined)
  }

  /** `n` array holes; each reads as `undefined`. */
  function Holes(n: nat): (r: seq<Json>)
    ensures |r| == n && forall i | 0 <= i < n :: r[i] == Undefined
  {
    seq(n, _ => Undefined)
  }

  /**
   * `obj[key] = x` on the node `obj`, returning the updated node: an
   * object's field is set, an array element is set and an index at or past
   * the end first extends the array with holes; strict mode makes a write on
   * a primitive, `undefined` or `null` a `TypeError`.
   */
  function Assign(v: Json, key: JsString, x: Json): Result<Json, PathError> {
    match v
    case Object(fields) => Success(Object(fields[key := x]))
    case Array(items) =>
      (match ParseIndex(key)
       case Some(i) =>
         if i < |items| then Success(Array(items[i := x]))
         else Success(Array(items + Holes(i - |items|) + [x]))
       case None => Failure(NotModelled))
    case _ => Failure(TypeError)
  }

  /** The loop of `GetProperty`: one `obj = obj[part]` per part. */
  function GetPath(v: Json, parts: seq<JsString>): Result<Json, PathError>
    decreases |parts|
  {
    if |parts| == 0 then Success(v)
    else
      var child :- Lookup(v, parts[0]);
      GetPath(child, parts[1..])
  }

  /**
   * `SetProperty` on the parts of a path: walk to the parent of the last
   * part and assign there. The node on each level is rebuilt around its
   * rewritten child, which is what the in-place write does to a tree.
   */
  function SetPath(v: Json, parts: seq<JsString>, x: Json): Result<Json, PathError>
    requires |parts| > 0
    decreases |parts|
  {
    if |parts| == 1 then Assign(v, parts[0], x)
    else
      var child :- Lookup(v, parts[0]);
      var updated :- SetPath(child, parts[1..], x);
      Assign(v, parts[0], updated)
  }

  /** `path.split('.')`: the pieces between dots; never empty, and "" gives [""]. */
  function Split(path: JsString): (parts: seq<JsString>)
    ensures |parts| > 0
    decreases |path|
  {
    if |path| == 0 then [[]]
    else
      var rest := Split(path[1..]);
      if path[0] == DOT then [[]] + rest
      else [[path[0]] + rest[0]] + rest[1..]
  }

  /** `parts.join('.')`, the inverse of `Split`. */
  function Join(parts: seq<JsString>): JsString
    requires |parts| > 0
    decreases |parts|
  {
    if |parts| == 1 then parts[0] else parts[0] + [DOT] + Join(parts[1..])
  }

  /** `GetProperty`. */
  function GetProperty(v: Json, path: JsString): Result<Json, PathError> {
    GetPath(v, Split(path))
  }

  /** `SetProperty`, returning the updated value. */
  function SetProperty(v: Json, path: JsString, x: Json): Result<Json, PathError> {
    SetPath(v, Split(path), x)
  }

  /** `path.split('.')` and `join('.')` undo each other: joining the pieces gives back the path. */
  lemma {:induction false} JoinSplit(path: JsString)
    ensures Join(Split(path)) == path
    decreases |path|
  {
    if |path| > 0 {
      var rest := Split(path[1..]);
      JoinSplit(path[1..]);
      if path[0] == DOT {
        JoinEmptyHead(rest);
      } else {
        JoinHead(path[0], rest);
      }
      assert path == [path[0]] + path[1..];
    }
  }

  /** An empty first piece contributes only its separator. */
  lemma {:induction false} JoinEmptyHead(parts: seq<JsString>)
    requires |parts| > 0
    ensures Join([[]] + parts) == [DOT] + Join(parts)
  {
    assert ([[]] + parts)[1..] == parts;
  }

  /** A unit put in front of the first piece comes out in front of the joined path. */
  lemma {:induction false} JoinHead(c: CodeUnit, parts: seq<JsString>)
    requires |parts| > 0
    ensures Join([[c] + parts[0]] + parts[1..]) == [c] + Join(parts)
  {
    var q := [[c] + parts[0]] + parts[1..];
    if |parts| > 1 {
      assert q[1..] == parts[1..];
    }
  }

  /** A piece without dots. */
  predicate NoDot(part: JsString) {
    forall i | 0 <= i < |part| :: part[i] != DOT
  }

  /** No piece of a split path contains a dot. */
  lemma {:induction false} SplitNoDots(path: JsString)
    ensures forall i | 0 <= i < |Split(path)| :: NoDot(Split(path)[i])
    decreases |path|
  {
    if |path| > 0 {
      SplitNoDots(path[1..]);
      var rest := Split(path[1..]);
      if path[0] != DOT {
        var parts := Split(path);
        forall i | 0 <= i < |parts| ensures NoDot(parts[i]) {
          if i == 0 {
            assert parts[0] == [path[0]] + rest[0];
          } else {
            assert parts[i] == rest[i];
          }
        }
      }
    }
  }

  /** Splitting the join of dot-free pieces gives back the pieces. */
  lemma {:induction false} SplitJoin(parts: seq<JsString>)
    requires |parts| > 0 && forall i | 0 <= i < |parts| :: NoDot(parts[i])
    ensures Split(Join(parts)) == parts
    decreases |parts|, |parts[0]|
  {
    if |parts[0]| > 0 {
      var head := parts[0];
      var shorter := [head[1..]] + parts[1..];
      SplitJoin(shorter);
      assert Join(parts) == [head[0]] + Join(shorter) by {
        if |parts| > 1 {
          assert shorter[1..] == parts[1..];
        }
      }
      assert Join(parts)[1..] == Join(shorter);
      assert [head[0]] + head[1..] == head;
      assert Split(Join(parts)) == [[head[0]] + shorter[0]] + shorter[1..];
    } else if |parts| > 1 {
      SplitJoin(parts[1..]);
      assert Join(parts) == [DOT] + Join(parts[1..]);
      assert Join(parts)[1..] == Join(parts[1..]);
      assert Split(Join(parts)) == [[]] + parts[1..];
    }
  }

  /** A node `obj[key] = x` can be applied to without an exception or a gap in the model. */
  predicate Writable(v: Json, key: JsString) {
    v.Object? || (v.Array? && ParseIndex(key).Some?)
  }

  /** A written key reads back as the written value. */
  lemma {:induction false} AssignThenLookup(v: Json, key: JsString, x: Json)
    requires Writable(v, key)
    ensures Assign(v, key, x).Success?
    ensures Lookup(Assign(v, key, x).value, key) == Success(x)
  {
  }

  /**
   * A write leaves every other key reading as before, except an array's
   * `length`, which grows when the write lands past the end.
   */
  lemma {:induction false} AssignKeepsOthers(v: Json, key: JsString, x: Json, other: JsString)
    requires Writable(v, key) && other != key
    requires v.Array? ==> other != LENGTH
    ensures Lookup(Assign(v, key, x).value, other) == Lookup(v, other)
  {
    if v.Array? && ParseIndex(other).Some? && ParseIndex(other) == ParseIndex(key) {
      ParseIndexInjective(other, key);
    }
  }

  /** Walking `a + b` is walking `a` and then walking `b` from where it stopped. */
  lemma {:induction false} GetPathAppend(v: Json, a: seq<JsString>, b: seq<JsString>)
    ensures GetPath(v, a + b) == (match GetPath(v, a)
                                  case Success(w) => GetPath(w, b)
                                  case Failure(e) => Failure(e))
    decreases |a|
  {
    if |a| > 0 {
      assert (a + b)[0] == a[0] && (a + b)[1..] == a[1..] + b;
      match Lookup(v, a[0])
      case Success(child) => GetPathAppend(child, a[1..], b);
      case Failure(_) =>
    } else {
      assert a + b == b;
    }
  }

  /** A walk that starts at a primitive, `undefined` or `null` never reaches a node it can write. */
  lemma {:induction false} SetPathFromScalar(v: Json, parts: seq<JsString>, x: Json)
    requires |parts| > 0 && !v.Object? && !v.Array?
    ensures SetPath(v, parts, x).Failure?
    decreases |parts|
  {
    if |parts| > 1 {
      match Lookup(v, parts[0])
      case Success(child) => SetPathFromScalar(child, parts[1..], x);
      case Failure(_) =>
    }
  }

  /**
   * `SetProperty` completes exactly when walking all parts but the last
   * completes on a node that can take the last part: an object, or an
   * array with an index key.
   */
  lemma {:induction false} SetPathSucceeds(v: Json, parts: seq<JsString>, x: Json)
    requires |parts| > 0
    ensures var parent := GetPath(v, parts[..|parts| - 1]);
      SetPath(v, parts, x).Success? <==> parent.Success? && Writable(parent.value, parts[|parts| - 1])
    decreases |parts|
  {
    if |parts| > 1 {
      var init := parts[..|parts| - 1];
      assert init[0] == parts[0] && init[1..] == parts[1..][..|parts| - 2];
      match Lookup(v, parts[0])
      case Success(child) =>
        SetPathSucceeds(child, parts[1..], x);
        if !child.Object? && !child.Array? {
          SetPathFromScalar(child, parts[1..], x);
        }
      case Failure(_) =>
    }
  }

  /** After `SetProperty` succeeds, `GetProperty` on the same parts yields the value written. */
  lemma {:induction false} GetAfterSet(v: Json, parts: seq<JsString>, x: Json)
    requires |parts| > 0 && SetPath(v, parts, x).Success?
    ensures GetPath(SetPath(v, parts, x).value, parts) == Success(x)
    decreases |parts|
  {
    var v2 := SetPath(v, parts, x).value;
    if |parts| == 1 {
      AssignThenLookup(v, parts[0], x);
    } else {
      var child := Lookup(v, parts[0]).value;
      if !child.Object? && !child.Array? {
        SetPathFromScalar(child, parts[1..], x);
      }
      var updated := SetPath(child, parts[1..], x).value;
      AssignThenLookup(v, parts[0], updated);
      GetAfterSet(child, parts[1..], x);
    }
  }

  /** The parent at depth `k` of the walk is an array and `key` is its `length`. */
  ghost predicate ReadsArrayLength(v: Json, prefix: seq<JsString>, key: JsString) {
    GetPath(v, prefix).Success? && GetPath(v, prefix).value.Array? && key == LENGTH
  }

  /**
   * After `SetProperty` on `parts`, a path that leaves `parts` at depth `k`
   * by a different key reads as before; only an array's `length` at the
   * point where the paths part can differ.
   */
  lemma {:induction false} SetKeepsOthers(v: Json, parts: seq<JsString>, x: Json, q: seq<JsString>, k: nat)
    requires k < |parts| && k < |q| && q[..k] == parts[..k] && q[k] != parts[k]
    requires SetPath(v, parts, x).Success?
    requires !ReadsArrayLength(v, parts[..k], q[k])
    ensures GetPath(SetPath(v, parts, x).value, q) == GetPath(v, q)
    decreases k
  {
    var v2 := SetPath(v, parts, x).value;
    var child := Lookup(v, parts[0]);
    var y := if |parts| == 1 then x else SetPath(child.value, parts[1..], x).value;
    if |parts| > 1 && !child.value.Object? && !child.value.Array? {
      SetPathFromScalar(child.value, parts[1..], x);
    }
    assert v2 == Assign(v, parts[0], y).value;
    SetPathSucceeds(v, parts, x);
    if k == 0 {
      AssignKeepsOthers(v, parts[0], y, q[0]);
    } else {
      assert q[0] == parts[0];
      AssignThenLookup(v, parts[0], y);
      assert parts[..k][1..] == parts[1..][..k - 1] && q[1..][..k - 1] == parts[1..][..k - 1];
      SetKeepsOthers(child.value, parts[1..], x, q[1..], k - 1);
    }
  }

  /** After `SetProperty`, a path that runs through the written value reads inside that value. */
  lemma {:induction false} GetBelowSet(v: Json, parts: seq<JsString>, x: Json, below: seq<JsString>)
    requires |parts| > 0 && SetPath(v, parts, x).Success?
    ensures GetPath(SetPath(v, parts, x).value, parts + below) == GetPath(x, below)
  {
    GetAfterSet(v, parts, x);
    GetPathAppend(SetPath(v, parts, x).value, parts, below);
  }

  /** `SetProperty` then `GetProperty` on the same path string yields the value written. */
  lemma {:induction false} SetPropertyThenGet(v: Json, path: JsString, x: Json)
    requires SetProperty(v, path, x).Success?
    ensures GetProperty(SetProperty(v, path, x).value, path) == Success(x)
  {
    GetAfterSet(v, Split(path), x);
  }
}
