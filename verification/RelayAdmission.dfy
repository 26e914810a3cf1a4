/** Which requests the relay admits, and the id it gives them. */
module RelayAdmission {
  import opened Text
  import opened RelayProtocol

  const LOWER := "abcdefghijklmnopqrstuvwxyz"
  const UPPER := "ABCDEFGHIJKLMNOPQRSTUVWXYZ"
  const DECIMAL := "0123456789"
  const HEX := "0123456789abcdef"

  lemma LowerIs(c: char)
    ensures c in LOWER <==> 'a' <= c <= 'z'
  {
    assert forall i :: 0 <= i < 26 ==> LOWER[i] == 'a' + i as char;
    if 'a' <= c <= 'z' {
      assert LOWER[c as int - 'a' as int] == c;
    }
  }

  lemma UpperIs(c: char)
    ensures c in UPPER <==> 'A' <= c <= 'Z'
  {
    assert forall i :: 0 <= i < 26 ==> UPPER[i] == 'A' + i as char;
    if 'A' <= c <= 'Z' {
      assert UPPER[c as int - 'A' as int] == c;
    }
  }

  lemma DecimalIs(c: char)
    ensures c in DECIMAL <==> '0' <= c <= '9'
  {
    assert forall i :: 0 <= i < 10 ==> DECIMAL[i] == '0' + i as char;
    if '0' <= c <= '9' {
      assert DECIMAL[c as int - '0' as int] == c;
    }
  }

  predicate AllIn(s: string, table: string) {
    forall i :: 0 <= i < |s| ==> s[i] in table
  }

  /** A path of the characters the relay knows, from the root and without two dots in a row. */
  ghost predicate WellFormed(path: string) {
    && path != "" && path[0] == '/' && AllIn(path, LOWER + UPPER + DECIMAL + "_-/.?=&%:,+")
    && !exists a: string, b: string :: path == a + ".." + b
  }

  ghost predicate ToolCall(path: string, name: string) {
    path == "/operator/tools/" + name && name != "" && AllIn(name, LOWER + "_.")
  }

  ghost predicate Reconcile(path: string, a: string, b: string, c: string, d: string, e: string) {
    && path == "/operator/invocations/" + a + "-" + b + "-" + c + "-" + d + "-" + e + "/reconcile"
    && |a| == 8 && |b| == 4 && |c| == 4 && |d| == 4 && |e| == 12
    && AllIn(a, HEX) && AllIn(b, HEX) && AllIn(c, HEX) && AllIn(d, HEX) && AllIn(e, HEX)
  }

  lemma CharIs(c: char)
    ensures PathChar(c) <==> c in LOWER + UPPER + DECIMAL + "_-/.?=&%:,+"
    ensures IdChar(c) <==> c in LOWER + UPPER + DECIMAL + "_-"
    ensures 'a' <= c <= 'z' || c == '_' || c == '.' <==> c in LOWER + "_."
    ensures '0' <= c <= '9' || 'a' <= c <= 'f' <==> c in HEX
  {
    hide LOWER, UPPER, DECIMAL;
    LowerIs(c);
    UpperIs(c);
    DecimalIs(c);
    HexIs(c);
  }

  lemma HexIs(c: char)
    ensures '0' <= c <= '9' || 'a' <= c <= 'f' <==> c in HEX
  {
    assert forall i :: 0 <= i < 16 ==> HEX[i] == if i < 10 then '0' + i as char else 'a' + (i - 10) as char;
    if '0' <= c <= '9' {
      assert HEX[c as int - '0' as int] == c;
    }
    if 'a' <= c <= 'f' {
      assert HEX[c as int - 'a' as int + 10] == c;
    }
  }

  lemma DotsAre(path: string)
    ensures HasDots(path) <==> exists a: string, b: string :: path == a + ".." + b
  {
    if i :| 0 <= i < |path| - 1 && path[i] == '.' && path[i + 1] == '.' {
      assert path == path[..i] + ".." + path[i + 2..];
    }
    if a: string, b: string :| path == a + ".." + b {
      assert path[|a|] == '.' && path[|a| + 1] == '.';
    }
  }

  lemma PathExactly(path: string)
    ensures PathOk(path) <==> WellFormed(path)
  {
    hide PathChar, HasDots;
    DotsAre(path);
    forall c: char ensures PathChar(c) <==> c in LOWER + UPPER + DECIMAL + "_-/.?=&%:,+" {
      CharIs(c);
    }
  }

  lemma ToolExactly(path: string)
    ensures TOOLS <= path && ToolName(path[|TOOLS|..]) <==> exists name :: ToolCall(path, name)
  {
    forall c: char ensures 'a' <= c <= 'z' || c == '_' || c == '.' <==> c in LOWER + "_." {
      CharIs(c);
    }
    if TOOLS <= path && ToolName(path[|TOOLS|..]) {
      assert ToolCall(path, path[|TOOLS|..]);
    }
    if name :| ToolCall(path, name) {
      assert path[|TOOLS|..] == name;
    }
  }

  predicate AllHex(s: string) {
    forall i :: 0 <= i < |s| ==> '0' <= s[i] <= '9' || 'a' <= s[i] <= 'f'
  }

  lemma HexTable(s: string)
    ensures AllHex(s) <==> AllIn(s, HEX)
  {
    forall c: char ensures '0' <= c <= '9' || 'a' <= c <= 'f' <==> c in HEX {
      HexIs(c);
    }
  }

  lemma UuidJoins(a: string, b: string, c: string, d: string, e: string)
    requires |a| == 8 && |b| == 4 && |c| == 4 && |d| == 4 && |e| == 12
    requires AllHex(a) && AllHex(b) && AllHex(c) && AllHex(d) && AllHex(e)
    ensures Uuid(a + "-" + b + "-" + c + "-" + d + "-" + e)
  {
  }

  lemma HexRange(u: string, x: nat, y: nat)
    requires Uuid(u) && x <= y <= 36 && !(x <= 8 < y) && !(x <= 13 < y) && !(x <= 18 < y) && !(x <= 23 < y)
    ensures AllHex(u[x..y])
  {
    forall i | 0 <= i < y - x ensures '0' <= u[x..y][i] <= '9' || 'a' <= u[x..y][i] <= 'f' {
      assert u[x..y][i] == u[x + i] && x + i !in {8, 13, 18, 23};
    }
  }

  lemma UuidSplits(u: string)
    requires Uuid(u)
    ensures u == u[..8] + "-" + u[9..13] + "-" + u[14..18] + "-" + u[19..23] + "-" + u[24..36]
  {
    assert u[8] == '-' && u[13] == '-' && u[18] == '-' && u[23] == '-';
  }

  lemma UuidIsGroups(u: string) returns (a: string, b: string, c: string, d: string, e: string)
    requires Uuid(u)
    ensures u == a + "-" + b + "-" + c + "-" + d + "-" + e
    ensures |a| == 8 && |b| == 4 && |c| == 4 && |d| == 4 && |e| == 12
    ensures AllIn(a, HEX) && AllIn(b, HEX) && AllIn(c, HEX) && AllIn(d, HEX) && AllIn(e, HEX)
  {
    hide Uuid, AllHex, AllIn, HEX;
    UuidSplits(u);
    assert |u| == 36 by {
      UuidLength(u);
    }
    a, b, c, d, e := u[0..8], u[9..13], u[14..18], u[19..23], u[24..36];
    HexRange(u, 0, 8);
    HexRange(u, 9, 13);
    HexRange(u, 14, 18);
    HexRange(u, 19, 23);
    HexRange(u, 24, 36);
    HexTable(a);
    HexTable(b);
    HexTable(c);
    HexTable(d);
    HexTable(e);
  }

  lemma UuidLength(u: string)
    ensures Uuid(u) ==> |u| == 36
  {
  }

  predicate ReconcilePath(path: string) {
    && INVOCATIONS <= path && |path| == |INVOCATIONS| + 36 + |RECONCILE|
    && Uuid(path[|INVOCATIONS|..|INVOCATIONS| + 36]) && path[|INVOCATIONS| + 36..] == RECONCILE
  }

  lemma PathIsReconcile(path: string) returns (a: string, b: string, c: string, d: string, e: string)
    requires ReconcilePath(path)
    ensures Reconcile(path, a, b, c, d, e)
  {
    hide Uuid, HEX, AllIn;
    var n := |INVOCATIONS|;
    var u := path[n..n + 36];
    a, b, c, d, e := UuidIsGroups(u);
    assert path == INVOCATIONS + u + RECONCILE;
  }

  lemma ReconcileIsPath(path: string, a: string, b: string, c: string, d: string, e: string)
    requires Reconcile(path, a, b, c, d, e)
    ensures ReconcilePath(path)
  {
    hide Uuid, HEX, AllIn, AllHex;
    HexTable(a);
    HexTable(b);
    HexTable(c);
    HexTable(d);
    HexTable(e);
    UuidJoins(a, b, c, d, e);
    var u := a + "-" + b + "-" + c + "-" + d + "-" + e;
    Around(path, u);
  }

  lemma Around(path: string, u: string)
    requires |u| == 36 && path == INVOCATIONS + u + RECONCILE
    ensures INVOCATIONS <= path && |path| == |INVOCATIONS| + 36 + |RECONCILE|
    ensures path[|INVOCATIONS|..|INVOCATIONS| + 36] == u && path[|INVOCATIONS| + 36..] == RECONCILE
  {
  }

  lemma ReconcileExactly(path: string)
    ensures ReconcilePath(path) <==> exists a, b, c, d, e :: Reconcile(path, a, b, c, d, e)
  {
    hide ReconcilePath, Reconcile;
    if ReconcilePath(path) {
      var a, b, c, d, e := PathIsReconcile(path);
    }
    if a, b, c, d, e :| Reconcile(path, a, b, c, d, e) {
      ReconcileIsPath(path, a, b, c, d, e);
    }
  }

  /** MAIN: a request is admitted if and only if its id is not empty, its path is well formed, and it
      is a GET, or a POST to a tool or to the reconciliation of an invocation. */
  lemma AdmittedExactly(rid: nat, file: File, p: Payload)
    ensures Admit(rid, file, p).allowed <==>
            && RequestId(file, p) != "" && WellFormed(p.path)
            && (p.verb == "GET"
                || (p.verb == "POST"
                    && ((exists name :: ToolCall(p.path, name)) || exists a, b, c, d, e :: Reconcile(p.path, a, b, c, d, e))))
    ensures Admit(rid, file, p).allowed ==> Admit(rid, file, p).lane == if p.verb == "GET" then Get else Post
  {
    hide PathOk, WellFormed, RequestId, ToolName, Uuid, ToolCall, Reconcile;
    PathExactly(p.path);
    ToolExactly(p.path);
    ReconcileExactly(p.path);
  }

  /** Sanitising an id leaves its letters, digits, `_` and `-`, in order. */
  lemma {:induction false} KeepConcat(a: string, b: string)
    ensures Keep(a + b) == Keep(a) + Keep(b)
    ensures |a| == 1 ==> Keep(a) == if a[0] in LOWER + UPPER + DECIMAL + "_-" then a else ""
  {
    if a == "" {
      assert a + b == b;
    } else {
      assert (a + b)[1..] == a[1..] + b;
      KeepConcat(a[1..], b);
      CharIs(a[0]);
    }
  }

  /** The id of a request is what is left of the given one, cut after 80 characters, and if nothing
      is left of it, the same of the file name. */
  lemma IdExactly(file: File, p: Payload)
    ensures var id, given := RequestId(file, p), Keep(if p.id.Some? then p.id.value else file);
            var from := if given != "" then given else Keep(file);
            && id <= from && |id| == (if |from| <= 80 then |from| else 80)
            && AllIn(id, LOWER + UPPER + DECIMAL + "_-")
  {
    hide LOWER, UPPER, DECIMAL, Keep;
    var id := RequestId(file, p);
    forall i | 0 <= i < |id| ensures id[i] in LOWER + UPPER + DECIMAL + "_-" {
      CharIs(id[i]);
    }
  }
}
