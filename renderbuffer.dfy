/** The scratch buffer of the raylib renderer: every text command is copied
    into it, NUL-terminated, before it is drawn, and it grows only when a
    string does not fit. */
module RaylibText {
  import opened Bytes

  /** A render command as the renderer's loop sees it: only text commands
      touch the buffer; the other kinds (rectangles, borders, images,
      scissor regions, custom elements) only draw. */
  datatype RenderCommand = TextCommand(contents: seq<Byte>) | OtherCommand

  /** The largest `length + 1` over the text commands, or `floor`. */
  function RequiredLength(commands: seq<RenderCommand>, floor: int): (n: int)
    ensures n >= floor
    ensures forall k :: 0 <= k < |commands| && commands[k].TextCommand? ==>
              n >= |commands[k].contents| + 1
    decreases |commands|
  {
    if commands == [] then floor
    else
      var m := if commands[0].TextCommand? && |commands[0].contents| + 1 > floor
               then |commands[0].contents| + 1 else floor;
      RequiredLength(commands[1..], m)
  }

  class TextRenderBuffer {
    /** `temp_render_buffer`; null until the first text command. */
    var buffer: array?<Byte>
    /** `temp_render_buffer_len` */
    var len: int

    ghost predicate Valid()
      reads this
    {
      (buffer == null ==> len == 0) && (buffer != null ==> buffer.Length == len)
    }

    constructor ()
      ensures Valid() && buffer == null && len == 0
    {
      buffer, len := null, 0;
    }

    /** The text case of `Clay_Raylib_Render`: make room for the string and
        its terminator, replacing the buffer only when it is too short, then
        copy the bytes and the NUL. */
    method PrepareText(contents: seq<Byte>)
      requires Valid()
      modifies this, buffer
      ensures Valid()
      ensures old(len) < |contents| + 1 ==> fresh(buffer) && len == |contents| + 1
      ensures old(len) >= |contents| + 1 ==> buffer == old(buffer) && len == old(len)
      ensures buffer != null && len >= |contents| + 1
      ensures buffer[..|contents|] == contents && buffer[|contents|] == NUL
      ensures NUL !in contents ==> CString(buffer[..]) == contents
    {
      var required := |contents| + 1;
      if required > len {
        buffer := new Byte[required];
        len := required;
      }
      var b := buffer;
      for k := 0 to |contents|
        invariant b == buffer && len == b.Length
        invariant b[..k] == contents[..k]
      {
        b[k] := contents[k];
      }
      b[|contents|] := NUL;
      assert b[..] == contents + [NUL] + b[|contents| + 1..];
      if NUL !in contents {
        CStringOfTerminated(contents, b[|contents| + 1..]);
      }
    }

    /** The command loop of `Clay_Raylib_Render`, reduced to what it does with
        text: the strings handed to the text drawing call, in command order. */
    method Render(commands: seq<RenderCommand>) returns (drawn: seq<seq<Byte>>)
      requires Valid()
      modifies this, buffer
      ensures Valid()
      ensures len == RequiredLength(commands, old(len))
      ensures |drawn| == |commands|
      ensures forall k :: 0 <= k < |commands| && commands[k].TextCommand? && NUL !in commands[k].contents ==>
                drawn[k] == commands[k].contents
    {
      drawn := [];
      for j := 0 to |commands|
        invariant Valid()
        invariant RequiredLength(commands[j..], len) == RequiredLength(commands, old(len))
        invariant |drawn| == j
        invariant forall k :: 0 <= k < j && commands[k].TextCommand? && NUL !in commands[k].contents ==>
                    drawn[k] == commands[k].contents
        invariant old(buffer) != null ==> buffer != null
        invariant buffer != old(buffer) ==> buffer == null || fresh(buffer)
      {
        assert commands[j..][1..] == commands[j + 1..];
        match commands[j] {
          case TextCommand(contents) =>
            PrepareText(contents);
            drawn := drawn + [CString(buffer[..])];
          case OtherCommand =>
            drawn := drawn + [[]];
        }
      }
      assert commands[|commands|..] == [];
    }
  }
}
