/**
  `human_duration` of vpn_status_web.py: the `duration_s` column of a ledger
  row shown as days, hours, minutes and seconds ("1 Tg, 2 Std, 5 Min, 30 Sek").
 */
module WebDuration {
  import opened Options
  import opened Text

  /** The four results of the chained `divmod` calls. */
  datatype Span = Span(days: int, hours: int, minutes: int, seconds: int)

  /** The number of seconds a span stands for. */
  function Total(p: Span): int {
    p.days * 86400 + p.hours * 3600 + p.minutes * 60 + p.seconds
  }

  /**
    `divmod` by 86400, 3600 and 60 in turn. Python floors, which for a
    positive divisor is Dafny's `/` and `%`, so a negative total gives negative
    days and non-negative hours, minutes and seconds.
   */
  function Breakdown(total: int): (p: Span)
    ensures Total(p) == total
    ensures 0 <= p.hours < 24 && 0 <= p.minutes < 60 && 0 <= p.seconds < 60
  {
    var d := total / 86400;
    var r := total % 86400;
    var h := r / 3600;
    var r2 := r % 3600;
    Span(d, h, r2 / 60, r2 % 60)
  }

  /** The bounds and the sum determine the parts: there is no other breakdown. */
  lemma {:induction false} BreakdownUnique(total: int, p: Span)
    requires Total(p) == total
    requires 0 <= p.hours < 24 && 0 <= p.minutes < 60 && 0 <= p.seconds < 60
    ensures p == Breakdown(total)
  {
    var rest := p.hours * 3600 + p.minutes * 60 + p.seconds;
    DivModUnique(total, 86400, p.days, rest);
    DivModUnique(rest, 3600, p.hours, p.minutes * 60 + p.seconds);
    DivModUnique(p.minutes * 60 + p.seconds, 60, p.minutes, p.seconds);
  }

  /** The pieces of the text: a zero day, hour or minute count is left out, the seconds never are. */
  function Pieces(p: Span): (r: seq<string>)
    ensures |r| >= 1 && forall i :: 0 <= i < |r| ==> |r[i]| > 0
  {
    UnitPiece(p.days, " Tg") + UnitPiece(p.hours, " Std") + UnitPiece(p.minutes, " Min")
    + [IntToString(p.seconds) + " Sek"]
  }

  /**
    Days, hours and minutes each give a piece exactly when they are not zero,
    in that order, and the seconds piece always comes last.
   */
  lemma PiecesShape(p: Span)
    ensures var r := Pieces(p);
      && |r| == 1 + (if p.days != 0 then 1 else 0) + (if p.hours != 0 then 1 else 0)
                  + (if p.minutes != 0 then 1 else 0)
      && r[|r| - 1] == IntToString(p.seconds) + " Sek"
      && (p.days != 0 ==> r[0] == IntToString(p.days) + " Tg")
      && (p.days == 0 && p.hours != 0 ==> r[0] == IntToString(p.hours) + " Std")
      && (p.days == 0 && p.hours == 0 && p.minutes != 0 ==> r[0] == IntToString(p.minutes) + " Min")
  {
  }

  /** `sep.join(parts)` for a separator of any length. */
  function JoinWith(parts: seq<string>, sep: string): string
    requires |parts| >= 1
  {
    if |parts| == 1 then parts[0] else parts[0] + sep + JoinWith(parts[1..], sep)
  }

  /**
    The text for a `duration_s` cell: empty when `int()` rejects the cell,
    otherwise the pieces joined with ", ".
   */
  function HumanDuration(durationS: string): (r: string)
    ensures r == "" <==> ParseInt(durationS).None?
  {
    match ParseInt(durationS)
    case None => ""
    case Some(total) =>
      var parts := Pieces(Breakdown(total));
      JoinWithNonEmpty(parts, ", ");
      JoinWith(parts, ", ")
  }

  lemma {:induction false} JoinWithNonEmpty(parts: seq<string>, sep: string)
    requires |parts| >= 1 && forall i :: 0 <= i < |parts| ==> |parts[i]| > 0
    ensures |JoinWith(parts, sep)| > 0
  {
    if |parts| > 1 {
      JoinWithNonEmpty(parts[1..], sep);
    }
  }

  // ---------------------------------------------------------------------------
  // Reading the text back

  predicate EndsWith(s: string, suffix: string) {
    |suffix| <= |s| && s[|s| - |suffix|..] == suffix
  }

  function Scale(v: Option<int>, unit: int): Option<int> {
    match v
    case None => None
    case Some(n) => Some(n * unit)
  }

  /** The seconds one piece stands for: a number and its unit, surrounding blanks ignored. */
  function ReadPiece(piece: string): Option<int> {
    ReadAmount(Strip(piece), ParseInt)
  }

  /** A number read by `number`, then its unit. */
  function ReadAmount(q: string, number: string -> Option<int>): Option<int> {
    if EndsWith(q, " Tg") then Scale(number(q[..|q| - 3]), 86400)
    else if EndsWith(q, " Std") then Scale(number(q[..|q| - 4]), 3600)
    else if EndsWith(q, " Min") then Scale(number(q[..|q| - 4]), 60)
    else if EndsWith(q, " Sek") then number(q[..|q| - 4])
    else None
  }

  /** The sum of what `read` makes of every piece, `None` when any piece is unreadable. */
  function ReadPieces(pieces: seq<string>, read: string -> Option<int>): Option<int> {
    if |pieces| == 0 then Some(0)
    else
      match read(pieces[0])
      case None => None
      case Some(v) =>
        match ReadPieces(pieces[1..], read)
        case None => None
        case Some(w) => Some(v + w)
  }

  /** The number of seconds a text written by `HumanDuration` stands for. */
  function ReadDuration(text: string): Option<int> {
    ReadPieces(Split(text, ','), ReadPiece)
  }

  /** The pieces after splitting on ',': the first as it is, the others behind a blank. */
  function Spaced(parts: seq<string>): (r: seq<string>)
    requires |parts| >= 1
    ensures |r| == |parts| && r[0] == parts[0]
    ensures forall i :: 1 <= i < |r| ==> r[i] == " " + parts[i]
  {
    [parts[0]] + seq(|parts| - 1, i requires 0 <= i < |parts| - 1 => " " + parts[i + 1])
  }

  lemma {:induction false} JoinWithComma(parts: seq<string>)
    requires |parts| >= 1
    ensures JoinWith(parts, ", ") == Join(Spaced(parts), ',')
  {
    if |parts| > 1 {
      var tail := parts[1..];
      JoinWithComma(tail);
      var st := Spaced(tail);
      var s := Spaced(parts);
      JoinPrefix(st, " ");
      assert s[1..] == [" " + st[0]] + st[1..];
    }
  }

  /** Putting text in front of the first piece puts it in front of the joined string. */
  lemma {:induction false} JoinPrefix(parts: seq<string>, pre: string)
    requires |parts| >= 1
    ensures pre + Join(parts, ',') == Join([pre + parts[0]] + parts[1..], ',')
  {
    var q := [pre + parts[0]] + parts[1..];
    if |parts| > 1 {
      assert q[1..] == parts[1..];
      assert Join(q, ',') == pre + parts[0] + [','] + Join(parts[1..], ',');
    }
  }

  lemma {:induction false} NoCommaInNumber(n: int)
    ensures ',' !in IntToString(n) && ' ' !in IntToString(n)
  {
    var r := IntToString(n);
    if n < 0 {
      var ds := NatToString(-n);
      assert r == "-" + ds;
      assert forall k :: 0 <= k < |r| ==> r[k] == '-' || IsDigit(r[k]) by {
        forall k | 0 <= k < |r| ensures r[k] == '-' || IsDigit(r[k]) {
          if k > 0 { assert r[k] == ds[k - 1]; }
        }
      }
    }
  }

  predicate UnitFactor(unit: string, factor: int) {
    || (unit == " Tg" && factor == 86400)
    || (unit == " Std" && factor == 3600)
    || (unit == " Min" && factor == 60)
    || (unit == " Sek" && factor == 1)
  }

  /** A number followed by its unit has no blank at either end. */
  lemma {:induction false} StripPiece(n: int, unit: string)
    requires |unit| > 0 && !IsSpace(unit[|unit| - 1])
    ensures Strip(IntToString(n) + unit) == IntToString(n) + unit
  {
    var num := IntToString(n);
    var q := num + unit;
    assert !IsSpace(num[0]) by {
      if n < 0 { assert num == "-" + NatToString(-n); } else { assert IsDigit(NatToString(n)[0]); }
    }
    assert q[0] == num[0];
    assert q[|q| - 1] == unit[|unit| - 1];
  }

  /** The blank after each comma does not change what a piece reads as. */
  lemma {:induction false} BlankIgnored(piece: string)
    ensures ReadPiece(" " + piece) == ReadPiece(piece)
  {
    assert StripLeft(" " + piece) == StripLeft(piece) by {
      assert (" " + piece)[1..] == piece;
    }
  }

  /** A stripped piece `IntToString(n) + unit` reads as `n` units. */
  lemma {:induction false} ReadUnit(n: int, unit: string, factor: int, number: string -> Option<int>)
    requires UnitFactor(unit, factor)
    requires number(IntToString(n)) == Some(n)
    ensures ReadAmount(IntToString(n) + unit, number) == Some(n * factor)
  {
    var num := IntToString(n);
    var q := num + unit;
    assert q[..|q| - |unit|] == num;
    assert q[|q| - |unit|..] == unit;
    if unit == " Tg" {
      assert EndsWith(q, " Tg");
    } else {
      assert !EndsWith(q, " Tg") by {
        assert q[|q| - 3..] == unit[1..];
      }
      if unit == " Std" {
        assert EndsWith(q, " Std");
      } else {
        assert !EndsWith(q, " Std");
        if unit == " Min" {
          assert EndsWith(q, " Min");
        } else {
          assert !EndsWith(q, " Min");
          assert EndsWith(q, " Sek");
        }
      }
    }
  }

  lemma {:induction false} ReadUnitPiece(n: int, unit: string, factor: int)
    requires UnitFactor(unit, factor)
    ensures ReadPiece(IntToString(n) + unit) == Some(n * factor)
  {
    StripPiece(n, unit);
    ParseIntOfIntToString(n);
    ReadUnit(n, unit, factor, ParseInt);
  }

  lemma {:induction false} ReadPiecesConcat(a: seq<string>, b: seq<string>, read: string -> Option<int>)
    requires ReadPieces(a, read).Some? && ReadPieces(b, read).Some?
    ensures ReadPieces(a + b, read) == Some(ReadPieces(a, read).value + ReadPieces(b, read).value)
  {
    if |a| == 0 {
      assert a + b == b;
    } else {
      ReadPiecesConcat(a[1..], b, read);
      assert (a + b)[1..] == a[1..] + b;
    }
  }

  /** Pieces that read alike add up alike. */
  lemma {:induction false} ReadPiecesAlike(ps: seq<string>, qs: seq<string>, read: string -> Option<int>)
    requires |ps| == |qs|
    requires forall i :: 0 <= i < |ps| ==> read(ps[i]) == read(qs[i])
    ensures ReadPieces(ps, read) == ReadPieces(qs, read)
  {
    if |ps| > 0 {
      ReadPiecesAlike(ps[1..], qs[1..], read);
    }
  }

  /** The optional piece for one unit: nothing for a zero count. */
  function UnitPiece(n: int, unit: string): (r: seq<string>)
    ensures |r| <= 1 && forall i :: 0 <= i < |r| ==> |r[i]| > 0
  {
    if n != 0 then [IntToString(n) + unit] else []
  }

  lemma {:induction false} UnitPieceValue(n: int, unit: string, factor: int, read: string -> Option<int>)
    requires read(IntToString(n) + unit) == Some(n * factor)
    ensures ReadPieces(UnitPiece(n, unit), read) == Some(n * factor)
  {
    if n != 0 {
      assert UnitPiece(n, unit)[1..] == [];
    }
  }

  /** Reading every piece adds up the span, for any reader that reads each unit. */
  lemma {:induction false} PiecesValue(p: Span, read: string -> Option<int>)
    requires read(IntToString(p.days) + " Tg") == Some(p.days * 86400)
    requires read(IntToString(p.hours) + " Std") == Some(p.hours * 3600)
    requires read(IntToString(p.minutes) + " Min") == Some(p.minutes * 60)
    requires read(IntToString(p.seconds) + " Sek") == Some(p.seconds)
    ensures ReadPieces(Pieces(p), read) == Some(Total(p))
  {
    UnitPieceValue(p.days, " Tg", 86400, read);
    UnitPieceValue(p.hours, " Std", 3600, read);
    UnitPieceValue(p.minutes, " Min", 60, read);
    ReadPiecesOne(IntToString(p.seconds) + " Sek", read, p.seconds);
    PartsValue(p, read);
  }

  /** The same sum, for the pieces written out. */
  lemma PartsValue(p: Span, read: string -> Option<int>)
    requires ReadPieces(UnitPiece(p.days, " Tg"), read) == Some(p.days * 86400)
    requires ReadPieces(UnitPiece(p.hours, " Std"), read) == Some(p.hours * 3600)
    requires ReadPieces(UnitPiece(p.minutes, " Min"), read) == Some(p.minutes * 60)
    requires ReadPieces([IntToString(p.seconds) + " Sek"], read) == Some(p.seconds)
    ensures ReadPieces(UnitPiece(p.days, " Tg") + UnitPiece(p.hours, " Std") + UnitPiece(p.minutes, " Min")
                       + [IntToString(p.seconds) + " Sek"], read) == Some(Total(p))
  {
    ReadPiecesSum4(UnitPiece(p.days, " Tg"), UnitPiece(p.hours, " Std"), UnitPiece(p.minutes, " Min"),
                   [IntToString(p.seconds) + " Sek"], read, p.days * 86400, p.hours * 3600, p.minutes * 60, p.seconds);
  }

  lemma ReadPiecesOne(piece: string, read: string -> Option<int>, v: int)
    requires read(piece) == Some(v)
    ensures ReadPieces([piece], read) == Some(v)
  {
    assert [piece][1..] == [];
  }

  /** Four runs of pieces add up to the sum of what each reads as. */
  lemma ReadPiecesSum4(a: seq<string>, b: seq<string>, c: seq<string>, e: seq<string>, read: string -> Option<int>,
                       va: int, vb: int, vc: int, ve: int)
    requires ReadPieces(a, read) == Some(va) && ReadPieces(b, read) == Some(vb)
    requires ReadPieces(c, read) == Some(vc) && ReadPieces(e, read) == Some(ve)
    ensures ReadPieces(a + b + c + e, read) == Some(va + vb + vc + ve)
  {
    ReadPiecesConcat(a, b, read);
    ReadPiecesConcat(a + b, c, read);
    ReadPiecesConcat(a + b + c, e, read);
  }

  /** `ReadPiece` reads every unit of a span. */
  lemma {:induction false} ReadSpanUnits(p: Span)
    ensures ReadPiece(IntToString(p.days) + " Tg") == Some(p.days * 86400)
    ensures ReadPiece(IntToString(p.hours) + " Std") == Some(p.hours * 3600)
    ensures ReadPiece(IntToString(p.minutes) + " Min") == Some(p.minutes * 60)
    ensures ReadPiece(IntToString(p.seconds) + " Sek") == Some(p.seconds * 1)
  {
    ReadUnitPiece(p.days, " Tg", 86400);
    ReadUnitPiece(p.hours, " Std", 3600);
    ReadUnitPiece(p.minutes, " Min", 60);
    ReadUnitPiece(p.seconds, " Sek", 1);
  }

  /** No piece of the text holds a comma. */
  lemma PiecesNoComma(p: Span)
    ensures forall x :: x in Pieces(p) ==> ',' !in x
  {
    NoCommaInNumber(p.days);
    NoCommaInNumber(p.hours);
    NoCommaInNumber(p.minutes);
    NoCommaInNumber(p.seconds);
    var a := UnitPiece(p.days, " Tg");
    var b := UnitPiece(p.hours, " Std");
    var c := UnitPiece(p.minutes, " Min");
    var e := [IntToString(p.seconds) + " Sek"];
    assert Pieces(p) == a + b + c + e;
    forall x | x in a + b + c + e ensures ',' !in x {
      if x in a { assert x == IntToString(p.days) + " Tg"; }
      else if x in b { assert x == IntToString(p.hours) + " Std"; }
      else if x in c { assert x == IntToString(p.minutes) + " Min"; }
      else { assert x == IntToString(p.seconds) + " Sek"; }
    }
  }

  /** Splitting the text on ',' gives back the pieces, blanks after the commas included. */
  lemma {:induction false} SplitHuman(p: Span)
    ensures Split(JoinWith(Pieces(p), ", "), ',') == Spaced(Pieces(p))
  {
    var parts := Pieces(p);
    JoinWithComma(parts);
    var sp := Spaced(parts);
    PiecesNoComma(p);
    forall i | 0 <= i < |sp| ensures ',' !in sp[i] {
      assert parts[i] in parts;
      if i > 0 {
        assert sp[i] == " " + parts[i];
      }
    }
    SplitJoin(sp, ',');
  }

  /** The text of a span reads back as the seconds the span adds up to. */
  lemma {:induction false} ReadHuman(p: Span)
    ensures ReadDuration(JoinWith(Pieces(p), ", ")) == Some(Total(p))
  {
    var parts := Pieces(p);
    var sp := Spaced(parts);
    assert ReadDuration(JoinWith(parts, ", ")) == ReadPieces(sp, ReadPiece) by {
      SplitHuman(p);
    }
    assert ReadPieces(sp, ReadPiece) == ReadPieces(parts, ReadPiece) by {
      forall i | 0 <= i < |sp| ensures ReadPiece(sp[i]) == ReadPiece(parts[i]) {
        if i > 0 {
          BlankIgnored(parts[i]);
        }
      }
      ReadPiecesAlike(sp, parts, ReadPiece);
    }
    ReadSpanUnits(p);
    PiecesValue(p, ReadPiece);
  }

  /**
    Reading the text back gives the number of seconds `int()` read from the
    cell: the breakdown loses nothing and every piece names its unit.
   */
  lemma {:induction false} HumanDurationRoundTrip(durationS: string)
    requires ParseInt(durationS).Some?
    ensures ReadDuration(HumanDuration(durationS)) == ParseInt(durationS)
  {
    var total := ParseInt(durationS).value;
    var p := Breakdown(total);
    var text := HumanDuration(durationS);
    assert text == JoinWith(Pieces(p), ", ");
    ReadHuman(p);
  }
}
