/** Repairing a mail header in which some line names no field. */
module HeaderRepair {
  import opened Utf8
  import opened Wrappers

  const LF: Byte := 10
  const CR: Byte := 13
  const SPACE: Byte := 32
  const TAB: Byte := 9
  const COLON: Byte := 58

  /** A line joined to the field named, or one that began the body. */
  datatype Warning = Joined(header: Text) | BeganBody

  // ---- lines ----

  /** nextLine: up to and with the first line feed. */
  function NextLine(data: Text): (line: Text)
    ensures line <= data && (data != [] ==> line != [])
    ensures forall k :: 0 <= k < |line| - 1 ==> line[k] != LF
    ensures line == data || (line != [] && line[|line| - 1] == LF)
    decreases |data|
  {
    if data == [] || data[0] == LF then data[..Min(|data|, 1)] else [data[0]] + NextLine(data[1..])
  }

  function Min(a: nat, b: nat): nat { if a < b then a else b }

  /** bytes.TrimRight(line, "\r\n"). */
  function Content(line: Text): (r: Text)
    ensures r <= line
    decreases |line|
  {
    if line != [] && (line[|line| - 1] == LF || line[|line| - 1] == CR) then Content(line[..|line| - 1]) else line
  }

  predicate Continues(content: Text) { content != [] && (content[0] == SPACE || content[0] == TAB) }

  /** The position of the first colon, or the length. */
  function ColonAt(line: Text): (i: nat)
    ensures i <= |line| && (i < |line| ==> line[i] == COLON) && forall k :: 0 <= k < i ==> line[k] != COLON
    decreases |line|
  {
    if line == [] || line[0] == COLON then 0 else 1 + ColonAt(line[1..])
  }

  /** fieldName: the name a line starts with, printable ASCII directly followed by a colon, or empty. */
  function FieldName(line: Text): (name: Text)
    ensures name <= line
  {
    var i := ColonAt(line);
    if 0 < i < |line| && (forall k :: 0 <= k < i ==> 0x21 <= line[k] <= 0x7E) then line[..i] else []
  }

  predicate Names(content: Text) { FieldName(content) != [] }

  /** fieldFollows: some line before the end of the header names a field. */
  function FieldFollows(data: Text): bool
    decreases |data|
  {
    if data == [] then false
    else
      var line := NextLine(data);
      Content(line) != [] && (Names(Content(line)) || FieldFollows(data[|line|..]))
  }

  // ---- the repair ----

  datatype Repair = Repair(out: Text, warnings: seq<Warning>)

  /** The line break a line ends with; a bare line feed when it ends with none. */
  function BreakOf(line: Text): Text {
    if |line| >= 2 && line[|line| - 2..] == [CR, LF] then [CR, LF] else [LF]
  }

  function Prepend(out: Text, warnings: seq<Warning>, rest: Option<Repair>): Option<Repair> {
    if rest.None? then None else Some(Repair(out + rest.value.out, warnings + rest.value.warnings))
  }

  /** What the first line of a message is: the end of the header, a line to pass on, or one that names no field. */
  datatype Kind = Ends | Passes(field: Text) | Unplaced | Joins | Begins

  function KindOf(data: Text, field: Text): (k: Kind)
    requires data != []
  {
    var line := NextLine(data);
    var content := Content(line);
    if content == [] then Ends
    else if Continues(content) then Passes(field)
    else if Names(content) then Passes(FieldName(content))
    else if field == [] then Unplaced
    else if FieldFollows(data[|line|..]) then Joins
    else Begins
  }

  /** repairHeader on what is left of a message, the field being the last one named; None when it gives up. */
  function Repaired(data: Text, field: Text): (r: Option<Repair>)
    decreases |data|
  {
    if data == [] then Some(Repair([], []))
    else
      var line := NextLine(data);
      var rest := data[|line|..];
      match KindOf(data, field)
      case Ends => Some(Repair(data, []))
      case Passes(next) => Prepend(line, [], Repaired(rest, next))
      case Unplaced => None
      case Joins => Prepend([SPACE] + line, [Joined(field)], Repaired(rest, field))
      case Begins => Some(Repair(BreakOf(line) + data, [BeganBody]))
  }

  // ---- the loops ----

  method FindFieldFollows(data: Text) returns (r: bool)
    ensures r == FieldFollows(data)
  {
    var left := data;
    while left != []
      invariant FieldFollows(left) == FieldFollows(data)
      decreases |left|
    {
      var line := NextLine(left);
      var content := Content(line);
      if content == [] {
        return false;
      }
      if Names(content) {
        return true;
      }
      left := left[|line|..];
    }
    return false;
  }

  /** repairHeader: None stands for the nil result. */
  method RepairHeader(data: Text) returns (r: Option<Repair>)
    ensures r == Repaired(data, [])
  {
    hide Content, FieldName, FieldFollows, Continues, Names, BreakOf, NextLine, Prepend;
    var out: Text, warnings: seq<Warning>, field: Text := [], [], [];
    var left := data;
    PrependNothing(Repaired(data, []));
    while left != []
      invariant Repaired(data, []) == Prepend(out, warnings, Repaired(left, field))
      decreases |left|
    {
      var line := NextLine(left);
      var content := Content(line);
      if content == [] {
        break;
      }
      var rest := left[|line|..];
      if Continues(content) {
        PrependTwice(out, warnings, line, [], Repaired(rest, field));
      } else if Names(content) {
        PrependTwice(out, warnings, line, [], Repaired(rest, FieldName(content)));
        field := FieldName(content);
      } else if field == [] {
        NothingToPrepend(out, warnings);
        return None;
      } else {
        var follows := FindFieldFollows(rest);
        if !follows {
          PrependLast(out, warnings, BreakOf(line) + left, [BeganBody]);
          return Some(Repair(out + (BreakOf(line) + left), warnings + [BeganBody]));
        }
        PrependTwice(out, warnings, [SPACE] + line, [Joined(field)], Repaired(rest, field));
        out, warnings := out + [SPACE] + line, warnings + [Joined(field)];
        left := rest;
        continue;
      }
      out, left := out + line, rest;
    }
    PrependLast(out, warnings, left, []);
    r := Some(Repair(out + left, warnings));
  }

  lemma NothingToPrepend(out: Text, warnings: seq<Warning>)
    ensures Prepend(out, warnings, None) == None
  {
  }

  lemma PrependLast(out: Text, warnings: seq<Warning>, more: Text, others: seq<Warning>)
    ensures Prepend(out, warnings, Some(Repair(more, others))) == Some(Repair(out + more, warnings + others))
    ensures others == [] ==> warnings + others == warnings
  {
  }

  lemma PrependNothing(r: Option<Repair>)
    ensures Prepend([], [], r) == r
  {
    if r.Some? {
      assert [] + r.value.out == r.value.out && [] + r.value.warnings == r.value.warnings;
    }
  }

  lemma PrependTwice(out: Text, warnings: seq<Warning>, more: Text, others: seq<Warning>, rest: Option<Repair>)
    ensures Prepend(out, warnings, Prepend(more, others, rest)) == Prepend(out + more, warnings + others, rest)
    ensures others == [] ==> warnings + others == warnings
    ensures forall space, line: Text :: more == [space] + line ==> out + more == out + [space] + line
  {
    if rest.Some? {
      assert out + (more + rest.value.out) == out + more + rest.value.out;
      assert warnings + (others + rest.value.warnings) == warnings + others + rest.value.warnings;
    }
  }

  // ---- what a repair inserts ----

  /** A message is cut into what it keeps, and a repair puts spaces and at most one line break between the cuts. */
  datatype Piece = Kept(bytes: Text) | Space | Break(bytes: Text)

  function Pieces(data: Text, field: Text): (ps: seq<Piece>)
    decreases |data|
  {
    if data == [] then []
    else
      var line := NextLine(data);
      var rest := data[|line|..];
      match KindOf(data, field)
      case Ends => [Kept(data)]
      case Passes(next) => [Kept(line)] + Pieces(rest, next)
      case Unplaced => []
      case Joins => [Space] + ([Kept(line)] + Pieces(rest, field))
      case Begins => [Break(BreakOf(line))] + [Kept(data)]
  }

  function Written(ps: seq<Piece>): Text
    decreases |ps|
  {
    if ps == [] then []
    else (match ps[0] case Kept(b) => b case Space => [SPACE] case Break(b) => b) + Written(ps[1..])
  }

  /** What is left once the insertions are deleted. */
  function Deleted(ps: seq<Piece>): Text
    decreases |ps|
  {
    if ps == [] then [] else (if ps[0].Kept? then ps[0].bytes else []) + Deleted(ps[1..])
  }

  function Insertions(ps: seq<Piece>): nat
    decreases |ps|
  {
    if ps == [] then 0 else (if ps[0].Kept? then 0 else 1) + Insertions(ps[1..])
  }

  /** A break is a line feed or a carriage return and a line feed, and nothing is inserted after it. */
  predicate BreaksLast(ps: seq<Piece>)
    decreases |ps|
  {
    ps == [] || ((ps[0].Break? ==> ps[0].bytes in {[LF], [CR, LF]} && Insertions(ps[1..]) == 0) && BreaksLast(ps[1..]))
  }

  lemma KeepsFirst(p: Piece, ps: seq<Piece>)
    ensures Written([p] + ps) == (match p case Kept(b) => b case Space => [SPACE] case Break(b) => b) + Written(ps)
    ensures Deleted([p] + ps) == (if p.Kept? then p.bytes else []) + Deleted(ps)
    ensures Insertions([p] + ps) == (if p.Kept? then 0 else 1) + Insertions(ps)
    ensures !p.Break? ==> BreaksLast([p] + ps) == BreaksLast(ps)
  {
    assert ([p] + ps)[1..] == ps;
  }

  lemma LastPiece(p: Piece)
    ensures Written([p]) == (match p case Kept(b) => b case Space => [SPACE] case Break(b) => b)
    ensures Deleted([p]) == if p.Kept? then p.bytes else []
    ensures Insertions([p]) == if p.Kept? then 0 else 1
    ensures p.Kept? ==> BreaksLast([p])
  {
    KeepsFirst(p, []);
    assert [p] + [] == [p];
  }

  /**
   * A repair only inserts: one space or one line break for each warning, a line break at most once and last.
   * Deleting what was inserted gives the message back.
   */
  lemma {:induction false} RepairOnlyInserts(data: Text, field: Text)
    requires Repaired(data, field).Some?
    ensures var r, ps := Repaired(data, field).value, Pieces(data, field);
            && Written(ps) == r.out && Deleted(ps) == data
            && Insertions(ps) == |r.warnings| && BreaksLast(ps)
    decreases |data|
  {
    hide KindOf, Written, Deleted, Insertions, BreaksLast, BreakOf;
    if data == [] {
      NoPieces();
    } else {
      var line := NextLine(data);
      var rest := data[|line|..];
      assert line + rest == data;
      match KindOf(data, field)
      case Ends =>
        LastPiece(Kept(data));
      case Passes(next) =>
        RepairOnlyInserts(rest, next);
        KeepsFirst(Kept(line), Pieces(rest, next));
      case Joins =>
        RepairOnlyInserts(rest, field);
        KeepsFirst(Kept(line), Pieces(rest, field));
        KeepsFirst(Space, [Kept(line)] + Pieces(rest, field));
        assert [SPACE] + (line + Repaired(rest, field).value.out) == [SPACE] + line + Repaired(rest, field).value.out;
      case Begins =>
        BodyPieces(line, data);
    }
  }

  lemma NoPieces()
    ensures Written([]) == [] && Deleted([]) == [] && Insertions([]) == 0 && BreaksLast([])
  {
  }

  lemma BodyPieces(line: Text, data: Text)
    ensures var ps := [Break(BreakOf(line))] + [Kept(data)];
            Written(ps) == BreakOf(line) + data && Deleted(ps) == data && Insertions(ps) == 1 && BreaksLast(ps)
  {
    var p := Break(BreakOf(line));
    LastPiece(Kept(data));
    KeepsFirst(p, [Kept(data)]);
    assert ([p] + [Kept(data)])[1..] == [Kept(data)];
  }

  // ---- what a repair keeps ----

  /** The lines that start a field, up to the end of the header. */
  function Fields(data: Text): (r: seq<Text>)
    decreases |data|
  {
    if data == [] then []
    else
      var line := NextLine(data);
      var content := Content(line);
      if content == [] then []
      else (if !Continues(content) && Names(content) then [line] else []) + Fields(data[|line|..])
  }

  /** A header without stray lines: every line continues a field or starts one. The strict parser asks for more, such as
      that the first line is no continuation. */
  predicate WellFormed(data: Text)
    decreases |data|
  {
    if data == [] then true
    else
      var line := NextLine(data);
      var content := Content(line);
      content == [] || ((Continues(content) || Names(content)) && WellFormed(data[|line|..]))
  }

  /** A whole line: nothing but its last byte is a line feed. */
  predicate IsLine(line: Text) {
    line != [] && forall k :: 0 <= k < |line| - 1 ==> line[k] != 10
  }

  lemma {:induction false} LineInFront(line: Text, rest: Text)
    requires IsLine(line) && (line[|line| - 1] == LF || rest == [])
    ensures NextLine(line + rest) == line && (line + rest)[|line|..] == rest
    decreases |line|
  {
    var data := line + rest;
    if |line| > 1 {
      assert data[1..] == line[1..] + rest;
      LineInFront(line[1..], rest);
    } else if line[0] != LF {
      assert data == line && data[1..] == [] && NextLine(data[1..]) == [];
    }
  }

  lemma {:induction false} ContentOfShifted(line: Text)
    requires Content(line) != []
    ensures Content([SPACE] + line) == [SPACE] + Content(line)
    decreases |line|
  {
    var last := line[|line| - 1];
    if last == LF || last == CR {
      assert ([SPACE] + line)[..|line|] == [SPACE] + line[..|line| - 1];
      ContentOfShifted(line[..|line| - 1]);
    }
  }

  /** What comes in front of a line that is passed on or joined has the fields and the form of what follows it. */
  lemma Passed(line: Text, rest: Text, out: Text)
    requires IsLine(line) && (line[|line| - 1] == LF || (rest == [] && out == []))
    requires Content(line) != [] && (Continues(Content(line)) || Names(Content(line)))
    requires Fields(out) == Fields(rest) && WellFormed(out)
    ensures Fields(line + out) == Fields(line + rest) && WellFormed(line + out)
  {
    LineInFront(line, out);
    LineInFront(line, rest);
  }

  lemma JoinedPasses(line: Text, rest: Text, out: Text)
    requires IsLine(line) && line[|line| - 1] == LF
    requires Content(line) != [] && !Continues(Content(line)) && !Names(Content(line))
    requires Fields(out) == Fields(rest) && WellFormed(out)
    ensures var all := [SPACE] + line + out; Fields(all) == Fields(line + rest) && WellFormed(all)
  {
    var shifted := [SPACE] + line;
    ContentOfShifted(line);
    assert Continues(Content(shifted));
    assert IsLine(shifted) by {
      assert forall k :: 0 < k < |shifted| - 1 ==> shifted[k] == line[k - 1];
    }
    assert shifted[|shifted| - 1] == LF;
    LineInFront(shifted, out);
    LineInFront(line, rest);
  }

  lemma BodyHasNoFields(line: Text, data: Text)
    ensures var all := BreakOf(line) + data; Fields(all) == [] && WellFormed(all)
  {
    var b := BreakOf(line);
    assert b == [CR, LF] || b == [LF];
    LineInFront(b, data);
    assert Content(b) == [] by {
      assert [CR, LF][..1] == [CR] && [CR][..0] == [] && [LF][..0] == [];
    }
  }

  /** A repaired header starts the fields the original started, in their order, and needs no further repair. */
  lemma {:induction false} RepairKeepsFields(data: Text, field: Text)
    requires Repaired(data, field).Some?
    ensures var out := Repaired(data, field).value.out; Fields(out) == Fields(data) && WellFormed(out)
    decreases |data|
  {
    if data != [] {
      hide Fields, WellFormed, BreakOf;
      var line := NextLine(data);
      var rest := data[|line|..];
      assert IsLine(line) && line + rest == data && (line[|line| - 1] == LF || rest == []);
      match KindOf(data, field)
      case Ends =>
        EndedHeader(data);
      case Passes(next) =>
        RepairKeepsFields(rest, next);
        Passed(line, rest, Repaired(rest, next).value.out);
      case Joins =>
        RepairKeepsFields(rest, field);
        JoinedPasses(line, rest, Repaired(rest, field).value.out);
      case Begins =>
        FieldFollowsExactly(rest);
        BodyHasNoFields(line, data);
        StrayHasNoField(data);
    }
  }

  lemma EndedHeader(data: Text)
    requires data != [] && Content(NextLine(data)) == []
    ensures WellFormed(data)
  {
  }

  lemma StrayHasNoField(data: Text)
    requires data != [] && !Names(Content(NextLine(data))) && Fields(data[|NextLine(data)|..]) == []
    ensures Fields(data) == []
  {
  }

  /** A repair that reports nothing changed nothing, and that is so exactly for a well-formed header. */
  lemma {:induction false} WellFormedIsLeftAlone(data: Text, field: Text)
    ensures WellFormed(data) <==> Repaired(data, field) == Some(Repair(data, []))
    ensures Repaired(data, field).Some? && Repaired(data, field).value.warnings == [] ==> WellFormed(data)
    decreases |data|
  {
    if data != [] {
      var line := NextLine(data);
      var rest := data[|line|..];
      assert line + rest == data;
      match KindOf(data, field)
      case Ends =>
      case Passes(next) =>
        WellFormedIsLeftAlone(rest, next);
        if Repaired(rest, next).Some? {
          assert [] + Repaired(rest, next).value.warnings == Repaired(rest, next).value.warnings;
        }
      case Unplaced =>
      case Joins =>
      case Begins =>
    }
  }

  /** A repaired message needs no further repair. */
  lemma RepairIsIdempotent(data: Text)
    requires Repaired(data, []).Some?
    ensures var out := Repaired(data, []).value.out; Repaired(out, []) == Some(Repair(out, []))
  {
    RepairKeepsFields(data, []);
    WellFormedIsLeftAlone(Repaired(data, []).value.out, []);
  }

  /** The first line of a message that continues nothing is neither blank nor a field. */
  predicate StraysFirst(data: Text)
    decreases |data|
  {
    data != [] &&
    var content := Content(NextLine(data));
    content != [] && if Continues(content) then StraysFirst(data[|NextLine(data)|..]) else !Names(content)
  }

  /** A message is given up on exactly when such a line comes before any field; later ones always have a field to join. */
  lemma {:induction false} GivesUpExactly(data: Text, field: Text)
    ensures Repaired(data, field).None? <==> field == [] && StraysFirst(data)
    decreases |data|
  {
    if data != [] {
      var rest := data[|NextLine(data)|..];
      match KindOf(data, field)
      case Ends =>
      case Passes(next) => GivesUpExactly(rest, next);
      case Unplaced =>
      case Joins => GivesUpExactly(rest, field);
      case Begins =>
    }
  }

  // ---- what a warning names ----

  /** The last field a stretch of header lines names, or the one before it. */
  function LastField(lines: Text, field: Text): Text
    decreases |lines|
  {
    if lines == [] then field
    else
      var line := NextLine(lines);
      var content := Content(line);
      LastField(lines[|line|..], if !Continues(content) && Names(content) then FieldName(content) else field)
  }

  /** Each line joined is reported under the field last named before it. */
  lemma {:induction false} WarningNamesTheFieldBefore(data: Text, field: Text, i: nat) returns (before: Text, after: Text)
    requires Repaired(data, field).Some? && i < |Repaired(data, field).value.warnings|
    requires Repaired(data, field).value.warnings[i].Joined?
    ensures before + after == data && after != []
    ensures LastField(before, field) == Repaired(data, field).value.warnings[i].header
    ensures KindOf(after, LastField(before, field)) == Joins
    decreases |data|
  {
    var kind := KindOf(data, field);
    WarningsOfRest(data, field);
    if kind == Joins && i == 0 {
      before, after := [], data;
    } else {
      var next, j := if kind.Passes? then kind.field else field, if kind == Joins then i - 1 else i;
      var rest := data[|NextLine(data)|..];
      assert Repaired(data, field).value.warnings[i] == Repaired(rest, next).value.warnings[j];
      FieldAfter(data, field);
      LineOf(data);
      hide KindOf, NextLine, Repaired, Content, Continues, Names, FieldName, LastField, IsLine;
      var line, b := NextLine(data), [];
      b, after := WarningNamesTheFieldBefore(rest, next, j);
      Reassembled(line, b, after, data);
      FieldAfterLine(line, b, field);
      before := line + b;
    }
  }

  lemma LineOf(data: Text)
    requires data != []
    ensures var line := NextLine(data); IsLine(line) && line <= data && (line[|line| - 1] == LF || line == data)
  {
  }

  lemma Reassembled(line: Text, more: Text, after: Text, data: Text)
    requires line <= data && more + after == data[|line|..]
    ensures line + more + after == data
    ensures line == data ==> more == []
  {
    assert line + (more + after) == data;
    assert line == data ==> |more| == 0;
  }

  lemma FieldAfterLine(line: Text, more: Text, field: Text)
    requires IsLine(line) && (line[|line| - 1] == LF || more == [])
    ensures LastField(line + more, field)
         == LastField(more, if !Continues(Content(line)) && Names(Content(line)) then FieldName(Content(line)) else field)
  {
    hide Content, Continues, Names, FieldName, NextLine;
    LineInFront(line, more);
  }

  lemma WarningsOfRest(data: Text, field: Text)
    requires data != [] && Repaired(data, field).Some?
    ensures var rest := data[|NextLine(data)|..];
            match KindOf(data, field)
            case Passes(next) =>
              Repaired(rest, next).Some? && Repaired(data, field).value.warnings == Repaired(rest, next).value.warnings
            case Joins =>
              && Repaired(rest, field).Some?
              && Repaired(data, field).value.warnings == [Joined(field)] + Repaired(rest, field).value.warnings
            case _ => forall w :: w in Repaired(data, field).value.warnings ==> w == BeganBody
  {
    hide KindOf, NextLine, BreakOf;
    var line := NextLine(data);
    if KindOf(data, field).Passes? {
      var ws := Repaired(data[|line|..], KindOf(data, field).field).value.warnings;
      assert [] + ws == ws;
    }
  }

  /** The field in force after a line that a repair goes on from. */
  lemma FieldAfter(data: Text, field: Text)
    requires data != [] && (KindOf(data, field).Passes? || KindOf(data, field) == Joins)
    ensures var content := Content(NextLine(data));
            (if KindOf(data, field).Passes? then KindOf(data, field).field else field)
            == if !Continues(content) && Names(content) then FieldName(content) else field
  {
  }

  // ---- a message line by line ----

  predicate OnlyBreaks(line: Text) { forall k :: 0 <= k < |line| ==> line[k] == 10 || line[k] == 13 }

  /** Printable ASCII up to a colon that is not the first byte. */
  predicate NameEnds(line: Text, i: int) {
    0 < i < |line| && line[i] == 58 && forall k :: 0 <= k < i ==> 0x21 <= line[k] <= 0x7E && line[k] != 58
  }

  ghost predicate StartsField(line: Text) { exists i :: NameEnds(line, i) }

  lemma {:induction false} ContentIsTrimmed(line: Text)
    ensures Content(line) == [] <==> OnlyBreaks(line)
    ensures forall k :: |Content(line)| <= k < |line| ==> line[k] == 10 || line[k] == 13
    decreases |line|
  {
    if line != [] {
      ContentIsTrimmed(line[..|line| - 1]);
      if Content(line) != [] {
        assert Content(line)[|Content(line)| - 1] == line[|Content(line)| - 1];
        ContentEndsInText(line);
      }
    }
  }

  lemma {:induction false} ContentEndsInText(line: Text)
    requires Content(line) != []
    ensures var last := Content(line)[|Content(line)| - 1]; last != 10 && last != 13
    decreases |line|
  {
    if line[|line| - 1] == 10 || line[|line| - 1] == 13 {
      ContentEndsInText(line[..|line| - 1]);
    }
  }

  lemma NameIsRead(line: Text)
    ensures Names(Content(line)) <==> StartsField(line)
    ensures forall i :: NameEnds(line, i) ==> FieldName(Content(line)) == line[..i]
  {
    ContentIsTrimmed(line);
    hide Content;
    var content := Content(line);
    forall i | NameEnds(line, i) ensures FieldName(content) == line[..i] && line[..i] != [] {
      assert i < |content|;
      assert ColonAt(content) == i;
    }
    if Names(content) {
      assert NameEnds(line, ColonAt(content));
    }
  }

  /** What the line's bytes say of it. */
  lemma LineForms(line: Text)
    requires line != []
    ensures !OnlyBreaks(line) ==> (Continues(Content(line)) <==> line[0] == 9 || line[0] == 32)
    ensures Names(Content(line)) <==> StartsField(line)
    ensures forall i :: NameEnds(line, i) ==> FieldName(Content(line)) == line[..i]
    ensures StartsField(line) ==> line[0] != 9 && line[0] != 32 && !OnlyBreaks(line)
  {
    ContentIsTrimmed(line);
    NameIsRead(line);
    hide Content, FieldName, Names;
  }

  /** The lines that start a field are read off the bytes: the first line, if it starts one, and those of the rest. */
  lemma FieldsByLine(line: Text, rest: Text)
    requires IsLine(line) && (line[|line| - 1] == 10 || rest == [])
    ensures Fields(line + rest) ==
            if OnlyBreaks(line) then [] else (if StartsField(line) then [line] else []) + Fields(rest)
    ensures Fields([]) == []
  {
    LineInFront(line, rest);
    ContentIsTrimmed(line);
    LineForms(line);
  }

  /** A field follows exactly when some line starts one. */
  lemma {:induction false} FieldFollowsExactly(data: Text)
    ensures FieldFollows(data) <==> Fields(data) != []
    decreases |data|
  {
    if data != [] {
      var line := NextLine(data);
      LineForms(line);
      ContentIsTrimmed(line);
      FieldFollowsExactly(data[|line|..]);
    }
  }

  /**
   * What happens to the first line, from its bytes: a blank line ends the header; a continuation and a field line are
   * passed on; any other line is joined with a space while a field follows, and else begins the body behind a line
   * break like its own; with no field before it, the repair is given up.
   */
  lemma RepairByLine(line: Text, rest: Text, field: Text)
    requires IsLine(line) && (line[|line| - 1] == 10 || rest == [])
    ensures Repaired([], field) == Some(Repair([], []))
    ensures var r := Repaired(line + rest, field);
            if OnlyBreaks(line) then r == Some(Repair(line + rest, []))
            else if line[0] == 9 || line[0] == 32 then r == Prepend(line, [], Repaired(rest, field))
            else if StartsField(line) then
              forall i :: NameEnds(line, i) ==> r == Prepend(line, [], Repaired(rest, line[..i]))
            else if field == [] then r == None
            else if Fields(rest) != [] then r == Prepend([32] + line, [Joined(field)], Repaired(rest, field))
            else r == Some(Repair((if |line| >= 2 && line[|line| - 2] == 13 && line[|line| - 1] == 10 then [13, 10] else [10])
                                  + (line + rest), [BeganBody]))
  {
    hide Content, FieldName, Continues, FieldFollows, Fields, NextLine, Prepend;
    LineInFront(line, rest);
    ContentIsTrimmed(line);
    LineForms(line);
    FieldFollowsExactly(rest);
    if |line| >= 2 {
      assert line[|line| - 2..] == [line[|line| - 2], line[|line| - 1]];
    }
  }
}
