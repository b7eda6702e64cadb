/** The code writer that turns a table of tool parameters into C# source
    lines for module parameters, the module's JSON writer calls and unit
    test set-up. Every template is a fixed concatenation; the table is two
    texts, one key per line and one `;`-separated row per line. */
module CSharpWriter {
  import opened Outcomes
  import opened Collections

  // ---------------------------------------------------------------------
  // Splitting and joining text

  /** Splitting at every `c`, as the host's `split` with a separator does:
      there is always one piece more than there are separators. */
  function Split(s: string, c: char): (ps: seq<string>)
    ensures |ps| >= 1
    decreases |s|
  {
    if |s| == 0 then [""]
    else if s[0] == c then [""] + Split(s[1..], c)
    else
      var rest := Split(s[1..], c);
      [[s[0]] + rest[0]] + rest[1..]
  }

  /** Putting pieces back together with `c` between them. */
  function Join(ps: seq<string>, c: char): string
    requires |ps| >= 1
    decreases |ps|
  {
    if |ps| == 1 then ps[0] else ps[0] + [c] + Join(ps[1..], c)
  }

  /** Joining the pieces gives back the text. */
  lemma {:induction false} JoinSplit(s: string, c: char)
    ensures Join(Split(s, c), c) == s
    decreases |s|
  {
    if |s| > 0 {
      JoinSplit(s[1..], c);
      var rest := Split(s[1..], c);
      if s[0] != c {
        if |rest| == 1 {
          assert Join(Split(s, c), c) == [s[0]] + rest[0];
        } else {
          assert Join(Split(s, c), c) == [s[0]] + rest[0] + [c] + Join(rest[1..], c);
          assert Join(rest, c) == rest[0] + [c] + Join(rest[1..], c);
        }
        assert s == [s[0]] + s[1..];
      } else {
        assert s == [c] + s[1..];
      }
    }
  }

  /** A text without the separator is a single piece. */
  lemma {:induction false} SplitNone(s: string, c: char)
    requires c !in s
    ensures Split(s, c) == [s]
    decreases |s|
  {
    if |s| > 0 {
      assert s[1..] == s[1..] && forall i | 0 <= i < |s[1..]| :: s[1..][i] == s[i + 1];
      SplitNone(s[1..], c);
      assert [s[0]] + s[1..] == s;
    }
  }

  /** Splitting a text at its first separator. */
  lemma {:induction false} SplitFirst(x: string, c: char, y: string)
    requires c !in x
    ensures Split(x + [c] + y, c) == [x] + Split(y, c)
    decreases |x|
  {
    if |x| == 0 {
      assert x + [c] + y == [c] + y;
      assert ([c] + y)[1..] == y;
    } else {
      var s := x + [c] + y;
      assert s[0] == x[0] && s[1..] == x[1..] + [c] + y;
      assert c !in x[1..] by {
        forall i | 0 <= i < |x[1..]| ensures x[1..][i] != c { assert x[1..][i] == x[i + 1]; }
      }
      SplitFirst(x[1..], c, y);
      assert [x[0]] + x[1..] == x;
    }
  }

  /** Splitting joined pieces gives the pieces back, when none holds the
      separator. */
  lemma {:induction false} SplitJoin(ps: seq<string>, c: char)
    requires |ps| >= 1 && forall i | 0 <= i < |ps| :: c !in ps[i]
    ensures Split(Join(ps, c), c) == ps
    decreases |ps|
  {
    if |ps| == 1 {
      SplitNone(ps[0], c);
    } else {
      SplitJoin(ps[1..], c);
      SplitFirst(ps[0], c, Join(ps[1..], c));
      assert [ps[0]] + ps[1..] == ps;
    }
  }

  // ---------------------------------------------------------------------
  // The templates

  /** The writer call a JSON writer makes for a value of type `ftype`:
      booleans and strings have their own, integers and floats share the
      number call. */
  function WriterKind(ftype: string): string
  {
    if ftype == "bool" then "Boolean"
    else if ftype == "int" || ftype == "float" then "Number"
    else "String"
  }

  /** A writer call: the property `name` written with the value `arg`. */
  function WriterCall(kind: string, name: string, arg: string): string
  {
    "writer.Write" + kind + "(\"" + name + "\", " + arg + ");"
  }

  /** The declaration of a module parameter. */
  function ParameterDeclaration(parameterName: string, indexNumber: string, functionType: string, functionName: string): string
  {
    "[Parameter(Name = \"" + parameterName + "\", " + "Description = \"\", " + "\n\t" + "Index = " + indexNumber + " )]"
      + "\n" + "public IFunction<" + functionType + "> " + functionName + ";" + "\n"
  }

  /** The module's writer call for one parameter: its value is the
      parameter function's result. */
  function ModuleCall(functionType: string, moduleName: string, functionName: string): (r: string)
  {
    if functionType == "bool" then "writer.WriteBoolean(\"" + moduleName + "\", " + functionName + ".Invoke());"
    else if functionType == "int" then "writer.WriteNumber(\"" + moduleName + "\", " + functionName + ".Invoke());"
    else if functionType == "float" then "writer.WriteNumber(\"" + moduleName + "\", " + functionName + ".Invoke());"
    else "writer.WriteString(\"" + moduleName + "\", " + functionName + ".Invoke());"
  }

  /** The unit test's writer call for one parameter: its value is the
      default. */
  function UnitTestModules(functionType: string, moduleName: string, defaultValue: string): string
  {
    if functionType == "bool" then "writer.WriteBoolean(\"" + moduleName + "\", " + defaultValue + ");"
    else if functionType == "int" then "writer.WriteNumber(\"" + moduleName + "\", " + defaultValue + ");"
    else if functionType == "float" then "writer.WriteNumber(\"" + moduleName + "\", " + defaultValue + ");"
    else "writer.WriteString(\"" + moduleName + "\", " + defaultValue + ");"
  }

  /** The unit test parameter writer, which the code writer spells out
      separately with the same four branches. */
  function UnitTestParameters(functionType: string, moduleName: string, defaultValue: string): string
  {
    if functionType == "bool" then "writer.WriteBoolean(\"" + moduleName + "\", " + defaultValue + ");"
    else if functionType == "int" then "writer.WriteNumber(\"" + moduleName + "\", " + defaultValue + ");"
    else if functionType == "float" then "writer.WriteNumber(\"" + moduleName + "\", " + defaultValue + ");"
    else "writer.WriteString(\"" + moduleName + "\", " + defaultValue + ");"
  }

  /** The unit test's parameter initialiser. */
  function UnitTestModule(parameterName: string, defaultValue: string): string
  {
    parameterName + " = Helper.CreateParameter(" + defaultValue + "),"
  }

  lemma Assoc(a: string, b: string, c: string)
    ensures (a + b) + c == a + (b + c)
  {
  }

  /** A template whose opening names the writer call of `kind` is that
      call, with the value `functionName` + `tail`. */
  lemma CallOpening(opening: string, kind: string, name: string, functionName: string, tail: string)
    requires opening == "writer.Write" + kind + "(\""
    ensures opening + name + "\", " + functionName + tail + ");" == WriterCall(kind, name, functionName + tail)
  {
    Assoc(opening + name + "\", ", functionName, tail);
    Assoc(opening + name + "\", " + functionName, tail, ");");
    Assoc(opening + name + "\", ", functionName + tail, ");");
  }

  /** The module's call is the writer call of the type's kind on the
      parameter function's result; `int` and `float` write alike. */
  lemma ModuleCallIsWriterCall(functionType: string, moduleName: string, functionName: string)
    ensures ModuleCall(functionType, moduleName, functionName) == WriterCall(WriterKind(functionType), moduleName, functionName + ".Invoke()")
    ensures ModuleCall("int", moduleName, functionName) == ModuleCall("float", moduleName, functionName)
  {
    var opening := "writer.Write" + WriterKind(functionType) + "(\"";
    if functionType == "bool" {
      assert opening == "writer.WriteBoolean(\"";
    } else if functionType == "int" || functionType == "float" {
      assert opening == "writer.WriteNumber(\"";
    } else {
      assert opening == "writer.WriteString(\"";
    }
    assert ".Invoke()" + ");" == ".Invoke());";
    CallOpening(opening, WriterKind(functionType), moduleName, functionName, ".Invoke()");
  }

  /** The two unit test writers agree everywhere, and each is the module's
      call with the default in place of the function's result. */
  lemma UnitTestWritersAgree(functionType: string, moduleName: string, defaultValue: string, functionName: string)
    ensures UnitTestModules(functionType, moduleName, defaultValue) == UnitTestParameters(functionType, moduleName, defaultValue)
    ensures UnitTestModules(functionType, moduleName, defaultValue) == WriterCall(WriterKind(functionType), moduleName, defaultValue)
    ensures ModuleCall(functionType, moduleName, functionName) == UnitTestModules(functionType, moduleName, functionName + ".Invoke()")
  {
    var opening := "writer.Write" + WriterKind(functionType) + "(\"";
    if functionType == "bool" {
      assert opening == "writer.WriteBoolean(\"";
    } else if functionType == "int" || functionType == "float" {
      assert opening == "writer.WriteNumber(\"";
    } else {
      assert opening == "writer.WriteString(\"";
    }
    CallOpening(opening, WriterKind(functionType), moduleName, defaultValue, "");
    assert defaultValue + "" == defaultValue;
    ModuleCallIsWriterCall(functionType, moduleName, functionName);
    CallOpening(opening, WriterKind(functionType), moduleName, functionName + ".Invoke()", "");
    assert functionName + ".Invoke()" + "" == functionName + ".Invoke()";
  }

  // ---------------------------------------------------------------------
  // Reading the templates back

  /** The text before the first `c` and the text after it. */
  function Cut(s: string, c: char): Option<(string, string)>
    decreases |s|
  {
    if |s| == 0 then None
    else if s[0] == c then Some(([], s[1..]))
    else match Cut(s[1..], c)
      case None => None
      case Some(p) => Some(([s[0]] + p.0, p.1))
  }

  lemma {:induction false} CutFirst(x: string, c: char, y: string)
    requires c !in x
    ensures Cut(x + [c] + y, c) == Some((x, y))
    decreases |x|
  {
    if |x| == 0 {
      assert x + [c] + y == [c] + y;
      assert ([c] + y)[1..] == y;
    } else {
      var s := x + [c] + y;
      assert s[0] == x[0] && s[1..] == x[1..] + [c] + y;
      assert c !in x[1..] by {
        forall i | 0 <= i < |x[1..]| ensures x[1..][i] != c { assert x[1..][i] == x[i + 1]; }
      }
      CutFirst(x[1..], c, y);
      assert [x[0]] + x[1..] == x;
    }
  }

  const WritePrefix: string := "writer.Write"

  /** Reading a writer call back into its kind, property name and value. */
  function ParseCall(s: string): Option<(string, string, string)>
  {
    if |s| < |WritePrefix| || s[..|WritePrefix|] != WritePrefix then None
    else match Cut(s[|WritePrefix|..], '(')
      case None => None
      case Some(p1) =>
        var r1 := p1.1;
        if |r1| == 0 || r1[0] != '"' then None
        else match Cut(r1[1..], '"')
          case None => None
          case Some(p2) =>
            var r2 := p2.1;
            if |r2| < 4 || r2[..2] != ", " || r2[|r2| - 2..] != ");" then None
            else Some((p1.0, p2.0, r2[2..|r2| - 2]))
  }

  /** A writer call reads back into what it was written from, as long as
      the kind holds no `(` and the name no `"`. */
  lemma ParseWriterCall(kind: string, name: string, arg: string)
    requires '(' !in kind && '"' !in name
    ensures ParseCall(WriterCall(kind, name, arg)) == Some((kind, name, arg))
  {
    var r2 := ", " + arg + ");";
    var r1 := "\"" + name + "\"" + r2;
    var s := WriterCall(kind, name, arg);
    assert s == WritePrefix + (kind + ['('] + r1);
    assert s[..|WritePrefix|] == WritePrefix;
    assert s[|WritePrefix|..] == kind + ['('] + r1;
    CutFirst(kind, '(', r1);
    assert r1[0] == '"' && r1[1..] == name + ['"'] + r2;
    CutFirst(name, '"', r2);
    assert r2[..2] == ", " && r2[|r2| - 2..] == ");" && r2[2..|r2| - 2] == arg;
  }

  /** The module's call names the parameter's module and invokes its
      function, under the writer call of the parameter's type. */
  lemma ModuleCallReads(functionType: string, moduleName: string, functionName: string)
    requires '"' !in moduleName
    ensures ParseCall(ModuleCall(functionType, moduleName, functionName))
            == Some((WriterKind(functionType), moduleName, functionName + ".Invoke()"))
  {
    ModuleCallIsWriterCall(functionType, moduleName, functionName);
    ParseWriterCall(WriterKind(functionType), moduleName, functionName + ".Invoke()");
  }

  /** The unit test's initialiser reads back: the parameter's name up to
      the first space, and the default as the argument of the helper call. */
  lemma UnitTestModuleReads(parameterName: string, defaultValue: string)
    requires ' ' !in parameterName
    ensures Cut(UnitTestModule(parameterName, defaultValue), ' ')
            == Some((parameterName, "= Helper.CreateParameter(" + defaultValue + "),"))
    ensures Cut("= Helper.CreateParameter(" + defaultValue + "),", '(')
            == Some(("= Helper.CreateParameter", defaultValue + "),"))
  {
    var rest := "= Helper.CreateParameter(" + defaultValue + "),";
    assert UnitTestModule(parameterName, defaultValue) == parameterName + [' '] + rest;
    CutFirst(parameterName, ' ', rest);
    assert rest == "= Helper.CreateParameter" + ['('] + (defaultValue + "),");
    CutFirst("= Helper.CreateParameter", '(', defaultValue + "),");
  }

  /** The declaration as its three lines, each followed by a break. */
  lemma ParameterDeclarationShape(n: string, i: string, t: string, f: string)
    ensures ParameterDeclaration(n, i, t, f) ==
      ("[Parameter(Name = \"" + n + "\", Description = \"\", ") + "\n" + ("\tIndex = " + i + " )]") + "\n"
        + ("public IFunction<" + t + "> " + f + ";") + "\n"
  {
    var a := "[Parameter(Name = \"" + n;
    Assoc(a, "\", ", "Description = \"\", ");
    assert "\", " + "Description = \"\", " == "\", Description = \"\", ";
    var l1 := a + "\", Description = \"\", ";
    Assoc(l1, "\n", "\t");
    assert "\n\t" == "\n" + "\t";
    var b := l1 + "\n";
    Assoc(b, "\t", "Index = ");
    assert "\t" + "Index = " == "\tIndex = ";
    Assoc(b, "\tIndex = ", i);
    Assoc(b, "\tIndex = " + i, " )]");
    var l2 := "\tIndex = " + i + " )]";
    var c := b + l2 + "\n";
    Assoc(c, "public IFunction<", t);
    Assoc(c, "public IFunction<" + t, "> ");
    Assoc(c, "public IFunction<" + t + "> ", f);
    Assoc(c, "public IFunction<" + t + "> " + f, ";");
  }

  /** A parameter declaration is three lines and a line break: the
      attribute naming the parameter, its index, and the field of the
      function's type, when no part holds a line break. */
  lemma ParameterDeclarationLines(parameterName: string, indexNumber: string, functionType: string, functionName: string)
    requires '\n' !in parameterName && '\n' !in indexNumber && '\n' !in functionType && '\n' !in functionName
    ensures Split(ParameterDeclaration(parameterName, indexNumber, functionType, functionName), '\n')
            == ["[Parameter(Name = \"" + parameterName + "\", Description = \"\", ",
                "\tIndex = " + indexNumber + " )]",
                "public IFunction<" + functionType + "> " + functionName + ";",
                ""]
  {
    var l1 := "[Parameter(Name = \"" + parameterName + "\", Description = \"\", ";
    var l2 := "\tIndex = " + indexNumber + " )]";
    var l3 := "public IFunction<" + functionType + "> " + functionName + ";";
    ParameterDeclarationShape(parameterName, indexNumber, functionType, functionName);
    Assoc(l1 + "\n" + l2, "\n", l3 + "\n");
    Assoc(l1 + "\n", l2, "\n" + (l3 + "\n"));
    Assoc(l1, "\n", l2 + ("\n" + (l3 + "\n")));
    Assoc(l2, "\n", l3 + "\n");
    Assoc(l3, "\n", "");
    assert ParameterDeclaration(parameterName, indexNumber, functionType, functionName) == l1 + ['\n'] + (l2 + ['\n'] + (l3 + ['\n'] + ""));
    assert '\n' !in l1 && '\n' !in l2 && '\n' !in l3;
    SplitFirst(l1, '\n', l2 + ['\n'] + (l3 + ['\n'] + ""));
    SplitFirst(l2, '\n', l3 + ['\n'] + "");
    SplitFirst(l3, '\n', "");
  }

  // ---------------------------------------------------------------------
  // The parameter table

  /** The `i`-th key line mapped to the `i`-th row; a later key line
      overrides an earlier equal one. */
  function Zip(keys: seq<string>, rows: seq<seq<string>>): map<string, seq<string>>
    requires |keys| <= |rows|
    decreases |keys|
  {
    if |keys| == 0 then map[]
    else Zip(keys[..|keys| - 1], rows)[keys[|keys| - 1] := rows[|keys| - 1]]
  }

  /** The parameter table: key lines paired with the `;`-split value
      lines; a key line without a value line is an index error. */
  function ParametersDict(keysText: string, valuesText: string): Result<map<string, seq<string>>>
  {
    var keys := Split(keysText, '\n');
    var lines := Split(valuesText, '\n');
    var rows := seq(|lines|, i requires 0 <= i < |lines| => Split(lines[i], ';'));
    if |lines| < |keys| then Err("IndexError: list index out of range")
    else Ok(Zip(keys, rows))
  }

  lemma {:induction false} ZipAt(keys: seq<string>, rows: seq<seq<string>>)
    requires |keys| <= |rows|
    ensures forall k :: k in Zip(keys, rows) <==> k in keys
    ensures forall i | 0 <= i < |keys| && (forall j | i < j < |keys| :: keys[j] != keys[i]) :: Zip(keys, rows)[keys[i]] == rows[i]
    decreases |keys|
  {
    if |keys| > 0 {
      var n := |keys| - 1;
      ZipAt(keys[..n], rows);
      assert forall i | 0 <= i < n :: keys[..n][i] == keys[i];
      assert forall k :: k in keys <==> k in keys[..n] || k == keys[n];
    }
  }

  /** The table has an entry for exactly the key lines, and the entry of
      a key line that does not occur again is its own row, split at `;`;
      it fails exactly when there are fewer value lines than key lines. */
  lemma ParametersDictAt(keysText: string, valuesText: string)
    ensures var keys := Split(keysText, '\n');
            var lines := Split(valuesText, '\n');
            && (ParametersDict(keysText, valuesText).Ok? <==> |keys| <= |lines|)
            && (ParametersDict(keysText, valuesText).Ok? ==>
                  var d := ParametersDict(keysText, valuesText).value;
                  && (forall k :: k in d <==> k in keys)
                  && forall i | 0 <= i < |keys| && (forall j | i < j < |keys| :: keys[j] != keys[i]) ::
                       d[keys[i]] == Split(lines[i], ';') && Join(d[keys[i]], ';') == lines[i])
  {
    var keys := Split(keysText, '\n');
    var lines := Split(valuesText, '\n');
    var rows := seq(|lines|, i requires 0 <= i < |lines| => Split(lines[i], ';'));
    if |keys| <= |lines| {
      ZipAt(keys, rows);
      forall i | 0 <= i < |keys| ensures Join(rows[i], ';') == lines[i] {
        JoinSplit(lines[i], ';');
      }
    }
  }

  // ---------------------------------------------------------------------
  // Default values

  function LowerChar(c: char): char
  {
    if 'A' <= c <= 'Z' then (c as int - 'A' as int + 'a' as int) as char else c
  }

  /** ASCII lower-casing (no other case mapping is modelled). */
  function Lower(s: string): string
  {
    seq(|s|, i requires 0 <= i < |s| => LowerChar(s[i]))
  }

  /** A row's default value: its fifth field, lower-cased, or nothing when
      the row is shorter. */
  function DefaultOf(row: seq<string>): string
  {
    if |row| < 5 then "" else Lower(row[4])
  }

  /** The default holds no capital letter, keeps the fifth field's length
      and agrees with it letter by letter up to case. */
  lemma DefaultOfShape(row: seq<string>)
    ensures forall i | 0 <= i < |DefaultOf(row)| :: !('A' <= DefaultOf(row)[i] <= 'Z')
    ensures |row| < 5 ==> DefaultOf(row) == ""
    ensures |row| >= 5 ==>
              && |DefaultOf(row)| == |row[4]|
              && forall i | 0 <= i < |row[4]| :: LowerChar(DefaultOf(row)[i]) == LowerChar(row[4][i])
    ensures Lower(DefaultOf(row)) == DefaultOf(row)
  {
  }
}
