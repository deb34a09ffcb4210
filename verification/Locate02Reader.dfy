/** `visit_locate02_format` and the loop of `search_one_database` that drives it, on the fields
    they update in place. */
module Locate02Reader {
  import opened Bytes
  import opened LocateBytes
  import opened Locate02

  datatype VisitResult = VISIT_CONTINUE | VISIT_ABORT | EXIT_CORRUPT

  class ProcessData {
    var c: int                        // an input byte, or EOF
    var count: int                    // length of the prefix shared with the entry before
    var len: nat
    var originalFilename: seq<Byte>   // grows as needed
    var fp: seq<Byte>                 // what is left of the database

    ghost predicate Ready()
      reads this
    {
      Locate02.Valid(View())
    }

    ghost function View(): Reader
      reads this
    {
      Reader(c, count, len, originalFilename, fp)
    }

    constructor (file: seq<Byte>)
      requires |file| >= |MAGIC|
      ensures Ready() && View() == Start(file)
    {
      var (first, rest) := LocateBytes.GetC(file[|MAGIC|..]);
      c, count, len := first, 0, 0;
      originalFilename := file[..|MAGIC|];
      fp := rest;
    }

    method Getc() returns (x: int)
      modifies this`fp
      ensures (x, fp) == LocateBytes.GetC(old(fp))
    {
      if |fp| == 0 {
        x := EOF;
      } else {
        x := fp[0];
        fp := fp[1..];
      }
    }

    method GetShort() returns (x: int)
      modifies this`fp
      ensures (x, fp) == Locate02.GetShort(old(fp))
    {
      var hi := Getc();
      x := SignedChar(hi) * 256;
      var lo := Getc();
      x := x + LowByte(lo);
    }

    /** `locate_read_str` with NUL as the delimiter; -1 at the end of the file. */
    method LocateReadStr(offs: nat) returns (nread: int)
      requires offs <= |originalFilename|
      modifies this`fp, this`originalFilename
      ensures old(fp) == [] ==> nread == -1 && fp == [] && originalFilename == old(originalFilename)
      ensures old(fp) != [] ==> var (data, rest) := ReadRecord(old(fp));
        nread == |data| && fp == rest && originalFilename == Overlay(old(originalFilename), offs, data)
    {
      if |fp| == 0 {
        return -1;
      }
      var n := 0;
      while n < |fp| && fp[n] != 0
        invariant n <= |fp| && NulIndex(fp) == n + NulIndex(fp[n..])
      {
        assert fp[n..][1..] == fp[n + 1..];
        n := n + 1;
      }
      nread := if n < |fp| then n + 1 else n;
      var data := fp[..nread];
      fp := fp[nread..];
      originalFilename := Overlay(originalFilename, offs, data);
    }

    method VisitLocate02Format() returns (result: VisitResult)
      requires Ready()
      modifies this
      ensures result == match VisitEntry(old(View()))
                        case Continue(_) => VISIT_CONTINUE
                        case Abort => VISIT_ABORT
                        case Corrupt => EXIT_CORRUPT
      ensures result == VISIT_CONTINUE ==> Ready() && View() == VisitEntry(old(View())).r
    {
      if c == ESCAPE {
        var x := GetShort();
        count := count + x;
      } else if c > 127 {
        count := count + c - 256;
      } else {
        count := count + c;
      }
      if count > len || count < 0 {
        return EXIT_CORRUPT;
      }
      var nread := LocateReadStr(count);
      if nread < 0 {
        return VISIT_ABORT;
      }
      c := Getc();
      len := count + nread;
      return VISIT_CONTINUE;
    }
  }

  /** Every name the visitor leaves for the visitors behind it, in order. */
  method SearchOneDatabase(file: seq<Byte>) returns (names: seq<Path>, corrupt: bool)
    requires |file| >= |MAGIC|
    ensures (names, corrupt) == Search(Start(file))
  {
    var procdata := new ProcessData(file);
    names, corrupt := [], false;
    assert [] + Search(Start(file)).0 == Search(Start(file)).0;
    while procdata.c != EOF
      invariant procdata.Ready() && !corrupt
      invariant Search(Start(file)) == (names + Search(procdata.View()).0, Search(procdata.View()).1)
      decreases |procdata.fp|, procdata.c != EOF
    {
      ghost var before := procdata.View();
      var result := procdata.VisitLocate02Format();
      match result {
        case EXIT_CORRUPT =>
          assert names + [] == names;
          corrupt := true;
          return;
        case VISIT_ABORT =>
          assert names + [] == names;
          return;
        case VISIT_CONTINUE =>
          var name := CString(procdata.originalFilename);
          assert names + ([name] + Search(procdata.View()).0) == names + [name] + Search(procdata.View()).0;
          names := names + [name];
      }
    }
    assert names + [] == names;
  }
}
