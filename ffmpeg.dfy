/**
 * The command line clipatron hands to ffmpeg for one clip, and a reading of
 * such a command line back into the clip and source video it stands for.
 */
module Ffmpeg {
  import opened Wrappers
  import opened Manifest

  /** The program every command starts with. */
  const Program: string := "ffmpeg"

  /** The argument vector for running ffmpeg with `args`. */
  function Argv(args: seq<string>): seq<string> {
    [Program] + args
  }

  /** The options for one clip: seek to the start before opening the input,
      read the source video, stop after the duration, copy the video stream,
      drop the audio, and write to the filename exactly as the manifest gives it. */
  function ClipArgs(clip: Clip, video: string): seq<string> {
    ["-ss", clip.startTime, "-i", video, "-t", clip.duration, "-vcodec", "copy", "-an", clip.filename]
  }

  /** One cut of `clip` out of `video`, as ffmpeg is asked to do it. */
  datatype Invocation = Invocation(clip: Clip, video: string)

  /** Reads a command line of the shape clipatron issues: the program, the
      seek option before the input option, the duration, stream copy of the
      video, no audio, and the output file last. Anything else is None. */
  function Parse(command: seq<string>): Option<Invocation> {
    if && |command| == 11
       && command[0] == Program
       && command[1] == "-ss"
       && command[3] == "-i"
       && command[5] == "-t"
       && command[7] == "-vcodec" && command[8] == "copy"
       && command[9] == "-an"
    then Some(Invocation(Clip(command[2], command[6], command[10]), command[4]))
    else None
  }

  /** The command issued for one clip: the program and ten arguments. */
  function ClipCommand(clip: Clip, video: string): (command: seq<string>)
    ensures |command| == 11 && command[0] == Program
  {
    Argv(ClipArgs(clip, video))
  }

  /** The command for a clip reads back as that very clip and source video. */
  lemma ParseClipCommand(clip: Clip, video: string)
    ensures Parse(ClipCommand(clip, video)) == Some(Invocation(clip, video))
  {
  }

  /** Parse accepts nothing but commands clipatron builds. */
  lemma ParseOnlyClipCommands(command: seq<string>)
    ensures Parse(command).Some? ==>
              command == ClipCommand(Parse(command).value.clip, Parse(command).value.video)
  {
    if Parse(command).Some? {
      var inv := Parse(command).value;
      var built := ClipCommand(inv.clip, inv.video);
      assert forall i :: 0 <= i < 11 ==> built[i] == command[i];
    }
  }

  /** Different clips, or different source videos, never share a command. */
  lemma ClipCommandInjective(clip: Clip, video: string, clip': Clip, video': string)
    ensures ClipCommand(clip, video) == ClipCommand(clip', video') <==> clip == clip' && video == video'
  {
    ParseClipCommand(clip, video);
    ParseClipCommand(clip', video');
  }
}
