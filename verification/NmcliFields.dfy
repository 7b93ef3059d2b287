/** Splitting one line of `nmcli --terse` output into fields, honouring backslash escapes. */
module NmcliFields {

  /** What is still to come: the rest of the line, the field being built, and whether the last
      character was an unconsumed backslash. */
  function SplitFrom(rest: string, current: string, escaped: bool): (fields: seq<string>)
    ensures fields != []
  {
    if rest == "" then [if escaped then current + "\\" else current]
    else if escaped then SplitFrom(rest[1..], current + [rest[0]], false)
    else if rest[0] == '\\' then SplitFrom(rest[1..], current, true)
    else if rest[0] == ':' then [current] + SplitFrom(rest[1..], "", false)
    else SplitFrom(rest[1..], current + [rest[0]], false)
  }

  method SplitNmcliTerseFields(rawLine: string) returns (fields: seq<string>)
    ensures fields == SplitFrom(rawLine, "", false)
  {
    fields := [];
    var current, escaped := "", false;
    for i := 0 to |rawLine|
      invariant fields + SplitFrom(rawLine[i..], current, escaped) == SplitFrom(rawLine, "", false)
    {
      var c := rawLine[i];
      assert rawLine[i..][1..] == rawLine[i + 1..];
      if escaped {
        current := current + [c];
        escaped := false;
      } else if c == '\\' {
        escaped := true;
      } else if c == ':' {
        fields := fields + [current];
        current := "";
      } else {
        current := current + [c];
      }
    }
    if escaped {
      current := current + "\\";
    }
    fields := fields + [current];
  }

  /** nmcli's own escaping: a backslash before every backslash and every colon. */
  function EscapeChar(c: char): string {
    if c == '\\' || c == ':' then ['\\', c] else [c]
  }

  function Escape(field: string): string {
    if field == "" then ""
    else EscapeChar(field[0]) + Escape(field[1..])
  }

  function JoinEscaped(fields: seq<string>): string
    requires fields != []
  {
    if |fields| == 1 then Escape(fields[0]) else Escape(fields[0]) + ":" + JoinEscaped(fields[1..])
  }

  lemma EscapedCharIsRead(c: char, rest: string, current: string)
    ensures SplitFrom(EscapeChar(c) + rest, current, false) == SplitFrom(rest, current + [c], false)
  {
    var line := EscapeChar(c) + rest;
    if c == '\\' || c == ':' {
      assert line[1..] == [c] + rest;
      assert line[1..][1..] == rest;
    } else {
      assert line[1..] == rest;
    }
  }

  lemma {:induction false} EscapedFieldIsRead(field: string, rest: string, current: string)
    ensures SplitFrom(Escape(field) + rest, current, false) == SplitFrom(rest, current + field, false)
    decreases |field|
  {
    hide SplitFrom;
    if field == "" {
      assert Escape(field) + rest == rest && current + field == current;
    } else {
      assert Escape(field) + rest == EscapeChar(field[0]) + (Escape(field[1..]) + rest);
      EscapedCharIsRead(field[0], Escape(field[1..]) + rest, current);
      EscapedFieldIsRead(field[1..], rest, current + [field[0]]);
      assert current + [field[0]] + field[1..] == current + field;
    }
  }

  /** Splitting undoes escaping and joining, for every non-empty list of fields. */
  lemma {:induction false} SplitInvertsJoin(fields: seq<string>)
    requires fields != []
    ensures SplitFrom(JoinEscaped(fields), "", false) == fields
    decreases |fields|
  {
    var first := fields[0];
    assert "" + first == first;
    if |fields| == 1 {
      EscapedFieldIsRead(first, "", "");
      assert Escape(first) + "" == Escape(first);
    } else {
      var rest := ":" + JoinEscaped(fields[1..]);
      EscapedFieldIsRead(first, rest, "");
      assert Escape(first) + ":" + JoinEscaped(fields[1..]) == Escape(first) + rest;
      assert rest[1..] == JoinEscaped(fields[1..]);
      SplitInvertsJoin(fields[1..]);
    }
  }

  /** How many backslashes stand directly before position `i`. */
  function BackslashRun(line: string, i: nat): nat
    requires i <= |line|
  {
    if i == 0 || line[i - 1] != '\\' then 0 else BackslashRun(line, i - 1) + 1
  }

  /** A colon separates fields unless an odd run of backslashes stands before it. */
  predicate Separates(line: string, i: nat)
    requires i < |line|
  {
    line[i] == ':' && BackslashRun(line, i) % 2 == 0
  }

  function SeparatorsFrom(line: string, i: nat): nat
    requires i <= |line|
    decreases |line| - i
  {
    if i == |line| then 0 else (if Separates(line, i) then 1 else 0) + SeparatorsFrom(line, i + 1)
  }

  lemma {:induction false} FieldsFrom(line: string, i: nat, current: string)
    requires i <= |line|
    ensures |SplitFrom(line[i..], current, BackslashRun(line, i) % 2 == 1)| == 1 + SeparatorsFrom(line, i)
    decreases |line| - i
  {
    if i == |line| {
    } else {
      assert line[i..][1..] == line[i + 1..];
      FieldsFrom(line, i + 1, current);
      FieldsFrom(line, i + 1, current + [line[i]]);
      FieldsFrom(line, i + 1, "");
    }
  }

  /** On any line at all, there is one field more than there are separating colons. */
  lemma FieldCount(line: string)
    ensures |SplitFrom(line, "", false)| == 1 + SeparatorsFrom(line, 0)
  {
    FieldsFrom(line, 0, "");
    assert line[0..] == line;
  }
}
