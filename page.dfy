/**
 * The guide page of app/page.tsx: the loaded project, where the user is in
 * it, the project name, the auto-advance switch and the clock, and the
 * handlers that change them.
 *
 * Each piece of React state is a field of `Guide`; each handler is a method
 * whose postcondition gives the whole new state. What the page shows
 * (progress, current instruction, canvas) is read from the fields.
 */
module Page {
  import opened Wrappers
  import opened Types
  import opened Text
  import FileParser
  import FileParserProperties
  import Nav = Navigation
  import Canvas = StringArtCanvas
  import opened UseTimer

  /** The saved-project file's contents; `savedAt` is the clock reading, passed in. */
  datatype SavedProjectData = SavedProjectData(
    project: Project,
    currentThreadIndex: int,
    currentInstructionIndex: int,
    time: nat,
    savedAt: string,
    name: string)

  /** A save: the data written and the name the file is downloaded under. */
  datatype Download = Download(data: SavedProjectData, fileName: string)

  const FileSuffix: string := "-string-art.json"

  /** Saving needs a project and a name that is not only whitespace. */
  predicate CanSave(project: Option<Project>, name: string)
  {
    project.Some? && Trim(name) != []
  }

  /** The download name: whitespace runs become '-', letters lower-cased, then the suffix. */
  function DownloadName(name: string): string
  {
    ToLower(ReplaceSpaceRuns(name, "-")) + FileSuffix
  }

  /** The double space of "My  Art" becomes one '-'; the other characters are kept. */
  lemma SpacedNameGlued(name: string)
    requires name == "My  Art"
    ensures ReplaceSpaceRuns(name, "-") == "My-Art"
  {
    var w: string, b: string := [' ', ' '], ['A', 'r', 't'];
    assert name == ['M'] + (['y'] + (w + b));
    ReplaceSpaceRunsIdentity(b, "-");
    ReplaceSpaceRunsRun(w, b, "-");
    ReplaceSpaceRunsKeeps('y', w + b, "-");
    ReplaceSpaceRunsKeeps('M', ['y'] + (w + b), "-");
  }

  /** "My-Art" lower-cased. */
  lemma SpacedNameLowered(glued: string)
    requires glued == "My-Art"
    ensures ToLower(glued) == "my-art"
  {
    var r := ToLower(glued);
    assert r[0] == 'm' && r[1] == 'y' && r[2] == '-' && r[3] == 'a' && r[4] == 'r' && r[5] == 't';
  }

  /**
   * A name with a double space and capitals: the whole run becomes one '-'
   * and the capitals small letters, so "My  Art" is saved as
   * "my-art-string-art.json".
   */
  lemma DownloadNameOfSpacedName(name: string)
    requires name == "My  Art"
    ensures DownloadName(name) == "my-art-string-art.json"
  {
    SpacedNameGlued(name);
    SpacedNameLowered(ReplaceSpaceRuns(name, "-"));
  }

  /** Saving is refused exactly without a project or with a blank name. */
  lemma CanSaveIffNamed(project: Option<Project>, name: string)
    ensures CanSave(project, name) <==> project.Some? && exists k :: 0 <= k < |name| && !IsSpace(name[k])
  {
    TrimEmptyIffBlank(name);
  }

  lemma ToLowerCharKeepsSpace(c: char)
    ensures IsSpace(ToLowerChar(c)) <==> IsSpace(c)
  {
  }

  /**
   * A download name ends in "-string-art.json" and holds neither whitespace
   * nor capital letters of Basic Latin and Latin-1.
   */
  lemma DownloadNameShape(name: string)
    ensures var f := DownloadName(name);
            |f| >= |FileSuffix| && f[|f| - |FileSuffix|..] == FileSuffix
    ensures var f := DownloadName(name);
            forall k :: 0 <= k < |f| ==> !IsSpace(f[k]) && !IsUpper(f[k])
  {
    var replaced := ReplaceSpaceRuns(name, "-");
    ReplaceSpaceRunsNoSpace(name, "-");
    var lowered := ToLower(replaced);
    var f := DownloadName(name);
    assert f == lowered + FileSuffix;
    forall k | 0 <= k < |f| ensures !IsSpace(f[k]) && !IsUpper(f[k]) {
      if k < |lowered| {
        ToLowerCharKeepsSpace(replaced[k]);
      } else {
        assert f[k] == FileSuffix[k - |lowered|];
      }
    }
  }

  /** A name already without whitespace and upper-case letters is used as it is. */
  lemma DownloadNameOfPlainName(name: string)
    requires forall k :: 0 <= k < |name| ==> !IsSpace(name[k]) && !IsUpper(name[k])
    ensures DownloadName(name) == name + FileSuffix
  {
    ReplaceSpaceRunsIdentity(name, "-");
  }

  /**
   * At a valid cursor the canvas can draw without failing, and the progress
   * loop only reads threads that exist.
   */
  lemma ValidIsRenderable(p: Project, c: Nav.Cursor)
    requires Nav.Valid(p.threads, c)
    ensures Canvas.Renderable(Some(p), c.thread, c.instruction)
    ensures c.thread <= |p.threads|
    ensures Canvas.Shown(p.threads, c.thread, c.instruction) <==> Nav.Shown(p.threads, c)
  {
  }

  /**
   * A parsed project's total is the number of its instructions, and it has
   * at least one thread, so the start is a valid cursor.
   */
  lemma ParsedProjectStarts(content: string, p: Project)
    requires FileParser.ParsedFile(content) == Ok(p)
    ensures p.totalInstructions == InstructionCount(p.threads) && Nav.Valid(p.threads, Nav.Start)
  {
    FileParserProperties.ParsedProject(content);
    FileParserProperties.InstructionCountIsLength(p.threads);
  }

  class Guide {
    var project: Option<Project>
    var threadIndex: int
    var instructionIndex: int
    var projectName: string
    var autoAdvance: bool
    const timer: Timer

    /** The page as first shown: nothing loaded, at the start, no name, auto-advance off, clock at zero. */
    constructor()
      ensures project.None? && threadIndex == 0 && instructionIndex == 0
      ensures projectName == [] && !autoAdvance
      ensures fresh(timer) && timer.time == 0 && !timer.isRunning
    {
      project := None;
      threadIndex := 0;
      instructionIndex := 0;
      projectName := [];
      autoAdvance := false;
      timer := new Timer();
    }

    function Position(): Nav.Cursor
      reads this
    {
      Nav.Cursor(threadIndex, instructionIndex)
    }

    /** The indices point into the loaded project: what uploading sets up and navigation keeps. */
    ghost predicate Consistent()
      reads this
    {
      project.Some? ==> Nav.Valid(project.value.threads, Position())
    }

    /**
     * handleFileUpload: a file that parses becomes the project, at the start,
     * with the clock reset and running; a file that does not leaves
     * everything as it was.
     */
    method FileUpload(content: string)
      modifies this, timer
      ensures var parsed := FileParser.ParsedFile(content);
              if parsed.Ok? then
                project == Some(parsed.value) && Position() == Nav.Start &&
                timer.time == 0 && timer.isRunning
              else
                project == old(project) && Position() == old(Position()) &&
                timer.time == old(timer.time) && timer.isRunning == old(timer.isRunning)
      ensures projectName == old(projectName) && autoAdvance == old(autoAdvance)
      ensures FileParser.ParsedFile(content).Ok? ==> Consistent()
    {
      var parsed := FileParser.ParseStringArtFile(content);
      if parsed.Ok? {
        ParsedProjectStarts(content, parsed.value);
        Open(parsed.value);
      }
    }

    /** The success branch of handleFileUpload: the project at the start, the clock reset and running. */
    method Open(p: Project)
      modifies this, timer
      ensures project == Some(p) && Position() == Nav.Start && timer.time == 0 && timer.isRunning
      ensures projectName == old(projectName) && autoAdvance == old(autoAdvance)
    {
      project := Some(p);
      instructionIndex := 0;
      threadIndex := 0;
      timer.Reset();
      timer.Start();
    }

    /** handleNext: one step forward through the loaded project; nothing without one. */
    method Next()
      modifies this
      ensures project == old(project) && projectName == old(projectName) && autoAdvance == old(autoAdvance)
      ensures Position() == if project.None? then old(Position()) else Nav.Next(project.value.threads, old(Position()))
      ensures old(Consistent()) ==> Consistent()
    {
      if project.None? {
        return;
      }
      if Consistent() {
        Nav.TransitionsKeepValid(project.value.threads, Position());
      }
      var c := Nav.Next(project.value.threads, Position());
      threadIndex := c.thread;
      instructionIndex := c.instruction;
    }

    /** handlePrevious: one step back through the loaded project; nothing without one. */
    method Previous()
      modifies this
      ensures project == old(project) && projectName == old(projectName) && autoAdvance == old(autoAdvance)
      ensures Position() == if project.None? then old(Position()) else Nav.Previous(project.value.threads, old(Position()))
      ensures old(Consistent()) ==> Consistent()
    {
      if project.None? {
        return;
      }
      if Consistent() {
        Nav.TransitionsKeepValid(project.value.threads, Position());
      }
      var c := Nav.Previous(project.value.threads, Position());
      threadIndex := c.thread;
      instructionIndex := c.instruction;
    }

    /** handleReset: back to the start with the clock stopped at zero; the project stays. */
    method Reset()
      modifies this, timer
      ensures Position() == Nav.Start && timer.time == 0 && !timer.isRunning
      ensures project == old(project) && projectName == old(projectName) && autoAdvance == old(autoAdvance)
      ensures old(Consistent()) ==> Consistent()
    {
      instructionIndex := 0;
      threadIndex := 0;
      timer.Reset();
    }

    /** The auto-advance switch. */
    method SetAutoAdvance(on: bool)
      modifies this
      ensures autoAdvance == on
      ensures project == old(project) && Position() == old(Position()) && projectName == old(projectName)
    {
      autoAdvance := on;
    }

    /** The project-name field. */
    method SetProjectName(name: string)
      modifies this
      ensures projectName == name
      ensures project == old(project) && Position() == old(Position()) && autoAdvance == old(autoAdvance)
    {
      projectName := name;
    }

    /**
     * One firing of the auto-advance interval, which is installed only while
     * the switch is on and a project is loaded, as it is meant to behave: one
     * Next from the current position. The page as written steps from the
     * position captured when the interval was installed, which
     * Navigation.FireAsWritten models.
     */
    method AutoAdvanceTick()
      requires autoAdvance && project.Some?
      modifies this
      ensures project == old(project) && projectName == old(projectName) && autoAdvance
      ensures Position() == Nav.Next(project.value.threads, old(Position()))
      ensures old(Consistent()) ==> Consistent()
    {
      Next();
    }

    /**
     * getProgressPercentage: 0 with no project; otherwise the instructions
     * before the cursor as a rounded percentage of the project's total, and
     * `None` where that division gives NaN or an infinity. For a total that
     * counts the project's instructions, at a consistent position with a
     * non-negative index, the result lies in 0..100.
     */
    method ProgressPercentage() returns (r: Option<int>)
      requires project.Some? ==> threadIndex <= |project.value.threads|
      ensures project.None? ==> r == Some(0)
      ensures project.Some? ==>
                r == Nav.Percent(Nav.Completed(project.value.threads, Position()), project.value.totalInstructions)
      ensures project.Some? && Consistent() && instructionIndex >= 0 &&
              project.value.totalInstructions == InstructionCount(project.value.threads) > 0 ==>
                r.Some? && 0 <= r.value <= 100
    {
      if project.None? {
        return Some(0);
      }
      var threads := project.value.threads;
      var completedInstructions := 0;
      var i := 0;
      while i < threadIndex
        invariant 0 <= i <= (if threadIndex < 0 then 0 else threadIndex)
        invariant completedInstructions == InstructionCount(threads[..i])
      {
        Nav.CompletedPrefix(threads, i);
        completedInstructions := completedInstructions + |threads[i].instructions|;
        i := i + 1;
      }
      completedInstructions := completedInstructions + instructionIndex;
      var total := project.value.totalInstructions;
      if total == 0 {
        r := None;
      } else {
        r := Some(Nav.RoundRatio(100 * completedInstructions, total));
      }
      if Consistent() && instructionIndex >= 0 && total == InstructionCount(threads) > 0 {
        Nav.ProgressBounds(threads, Position());
      }
    }

    /**
     * handleSaveProject: refused without a project or with a blank name;
     * otherwise the project, the position, the clock reading, the given time
     * stamp and the name, downloaded under the name derived from it.
     */
    method Save(savedAt: string) returns (r: Option<Download>)
      ensures r.Some? <==> CanSave(project, projectName)
      ensures r.Some? ==>
                r.value.data == SavedProjectData(project.value, threadIndex, instructionIndex, timer.time, savedAt, projectName) &&
                r.value.fileName == DownloadName(projectName)
    {
      if project.None? || Trim(projectName) == [] {
        return None;
      }
      var data := SavedProjectData(project.value, threadIndex, instructionIndex, timer.time, savedAt, projectName);
      r := Some(Download(data, DownloadName(projectName)));
    }

    /**
     * handleLoadProject: a file that reads as saved data restores the
     * project, both indices and the name exactly as stored, unchecked, and
     * resets the clock (the stored time is only reported); one that does
     * not leaves everything as it was.
     */
    method Load(saved: Option<SavedProjectData>)
      modifies this, timer
      ensures saved.None? ==>
                project == old(project) && Position() == old(Position()) && projectName == old(projectName) &&
                timer.time == old(timer.time) && timer.isRunning == old(timer.isRunning)
      ensures saved.Some? ==>
                project == Some(saved.value.project) &&
                Position() == Nav.Cursor(saved.value.currentThreadIndex, saved.value.currentInstructionIndex) &&
                projectName == saved.value.name &&
                timer.time == 0 && !timer.isRunning
      ensures autoAdvance == old(autoAdvance)
    {
      if saved.None? {
        return;
      }
      var data := saved.value;
      project := Some(data.project);
      threadIndex := data.currentThreadIndex;
      instructionIndex := data.currentInstructionIndex;
      projectName := data.name;
      timer.Reset();
    }

    /**
     * Saving and loading the saved file restores the project, the position
     * and the name; the clock restarts from zero, stopped.
     */
    method SaveThenLoad(savedAt: string) returns (fileName: string)
      requires CanSave(project, projectName)
      modifies this, timer
      ensures project == old(project) && Position() == old(Position()) && projectName == old(projectName)
      ensures timer.time == 0 && !timer.isRunning
      ensures fileName == DownloadName(projectName)
    {
      var download := Save(savedAt);
      Load(Some(download.value.data));
      fileName := download.value.fileName;
    }
  }
}
