/**
 * The prompt assembler (backend/services/prompt.py): the augmented prompt
 * sent for story continuation, and the extraction prompt sent to turn a
 * story into memory entries. Both are stateless.
 */
module Prompt {
  import opened Strings
  import opened Models

  /**
   * `DEFAULT_INSTRUCTION`. Its first and last words are separate literals
   * so that facts about its first and last characters stay cheap to prove.
   */
  const DefaultInstruction: string :=
    "Continue" + " this story. Maintain consistency with the characters, locations, and details provided in MEMORY "
    + "CONTEXT."

  /** The section headers. */
  const MemoryHeader: string := "[MEMORY CONTEXT]"
  const StoryInputHeader: string := "[STORY INPUT]"
  const InstructionHeader: string := "[INSTRUCTION]"

  /** `DEFAULT_EXTRACT_TYPES`. */
  const DefaultExtractTypes: seq<string> := ["character", "location", "item", "event"]

  /** `s` begins with `p`. */
  predicate HasPrefix(s: string, p: string) {
    |p| <= |s| && s[..|p|] == p
  }

  /** `s` ends with `p`. */
  predicate HasSuffix(s: string, p: string) {
    |p| <= |s| && s[|s| - |p|..] == p
  }

  // ---------------------------------------------------------------------
  // build_augmented_prompt
  // ---------------------------------------------------------------------

  /**
   * The `matched_entries` dict after visiting `keys` in order: each visited
   * key present in `memory` is stored with its entry; a key seen again is
   * reassigned in place and keeps its first position.
   */
  function MatchedContext(keys: seq<string>, memory: map<string, MemoryEntry>): Memory
  {
    if keys == [] then Empty
    else
      var prev := MatchedContext(keys[..|keys| - 1], memory);
      var k := keys[|keys| - 1];
      if k in memory then
        Memory(if k in prev.entries then prev.order else prev.order + [k], prev.entries[k := memory[k]])
      else prev
  }

  /** Visiting one more key. */
  lemma MatchedContextStep(keys: seq<string>, k: string, memory: map<string, MemoryEntry>)
    ensures var prev := MatchedContext(keys, memory);
      MatchedContext(keys + [k], memory)
      == if k in memory then
           Memory(if k in prev.entries then prev.order else prev.order + [k], prev.entries[k := memory[k]])
         else prev
  {
    assert (keys + [k])[..|keys|] == keys;
  }

  /**
   * The context holds exactly the matched keys that are in `memory`, each
   * with its entry from `memory`, each once; matched keys missing from
   * `memory` are skipped.
   */
  lemma {:induction false} MatchedContextKeys(keys: seq<string>, memory: map<string, MemoryEntry>)
    ensures var ctx := MatchedContext(keys, memory);
      && ctx.Valid()
      && (forall k :: k in ctx.entries <==> k in keys && k in memory)
      && (forall k :: k in ctx.entries ==> k in memory && ctx.entries[k] == memory[k])
  {
    if keys != [] {
      var init, k := keys[..|keys| - 1], keys[|keys| - 1];
      assert keys == init + [k];
      MatchedContextKeys(init, memory);
      var prev := MatchedContext(init, memory);
      if k in memory && k !in prev.entries {
        assert k !in prev.order;
        var order := prev.order + [k];
        forall i, j | 0 <= i < j < |order| ensures order[i] != order[j] {
          if j == |prev.order| {
            assert order[i] in prev.order;
          }
        }
      }
    }
  }

  /** The context's key order is the order in which the keys first appear in `keys`. */
  lemma {:induction false} MatchedContextOrder(keys: seq<string>, memory: map<string, MemoryEntry>)
    ensures var ctx := MatchedContext(keys, memory);
      && (forall k :: k in ctx.order ==> k in keys)
      && FirstSeenOrder(keys, ctx.order)
  {
    if keys != [] {
      var init, k := keys[..|keys| - 1], keys[|keys| - 1];
      assert keys == init + [k];
      MatchedContextOrder(init, memory);
      MatchedContextKeys(init, memory);
      var prev := MatchedContext(init, memory);
      FirstSeenOrderStep(init, k, prev.order);
      if k in memory && k !in prev.entries {
        assert k !in init;
        FirstSeenOrderAppend(init, k, prev.order);
      }
    }
  }

  /** The instruction line: the stripped custom instruction when it is not blank, else the default. */
  function InstructionText(instruction: Option<string>): string
  {
    if instruction.Some? && |instruction.value| > 0 && Strip(instruction.value) != "" then Strip(instruction.value)
    else DefaultInstruction
  }

  /**
   * The instruction line is never blank and never has surrounding
   * whitespace; it is the custom instruction, stripped, exactly when that
   * instruction is given and not blank.
   */
  lemma InstructionTextSpec(instruction: Option<string>)
    ensures var r := InstructionText(instruction);
      && !Blank(r)
      && Strip(r) == r
      && (instruction.Some? && !Blank(instruction.value) ==> r == Strip(instruction.value))
      && (instruction.None? || Blank(instruction.value) ==> r == DefaultInstruction)
  {
    if instruction.Some? {
      StripEmptyIffBlank(instruction.value);
    }
    if instruction.Some? && !Blank(instruction.value) {
      StrippedIsClean(instruction.value);
    } else {
      DefaultInstructionIsClean();
    }
  }

  /** The default instruction is not blank and has no surrounding whitespace. */
  lemma DefaultInstructionIsClean()
    ensures !Blank(DefaultInstruction) && Strip(DefaultInstruction) == DefaultInstruction
  {
    assert DefaultInstruction[0] == 'C';
    assert DefaultInstruction[|DefaultInstruction| - 1] == '.';
  }

  /** The `[MEMORY CONTEXT]` section, with its trailing empty line, or nothing when the context is empty. */
  function ContextSection(ctx: Memory, dumps: Memory -> string): string
  {
    if ctx.entries != map[] then MemoryHeader + "\n" + dumps(ctx) + "\n" + "\n" else ""
  }

  /** The `[STORY INPUT]` section, with its trailing empty line, or nothing when the story is blank. */
  function StorySection(story: string): string
  {
    if Strip(story) != "" then StoryInputHeader + "\n" + Strip(story) + "\n" + "\n" else ""
  }

  /**
   * The augmented prompt as its sections laid end to end: memory context,
   * story, instruction. `dumps` stands for `json.dumps(..., indent=2,
   * ensure_ascii=False)`.
   */
  function AugmentedPrompt(story: string, matchedKeys: seq<string>, memory: Memory,
                           instruction: Option<string>, dumps: Memory -> string): string
  {
    ContextSection(MatchedContext(matchedKeys, memory.entries), dumps)
      + StorySection(story)
      + InstructionHeader + "\n" + InstructionText(instruction)
  }

  /** A section of two lines and an empty one, followed by more parts. */
  lemma JoinSection(a: string, b: string, rest: seq<string>, sep: string)
    requires |rest| > 0
    ensures Join([a, b, ""] + rest, sep) == a + sep + b + sep + sep + Join(rest, sep)
  {
    JoinCons("", rest, sep);
    JoinCons(b, [""] + rest, sep);
    JoinCons(a, [b] + ([""] + rest), sep);
    assert [b, ""] + rest == [b] + ([""] + rest);
    assert [a, b, ""] + rest == [a] + ([b, ""] + rest);
  }

  // Regrouping of concatenations, stated over plain variables so that the
  // solver never looks inside the literals they stand for.

  /** The three groupings of a five-piece concatenation that the prompt proofs need. */
  lemma Regroup(c: string, x: string, h: string, n: string, l: string)
    ensures c + x + h + n + l == c + (x + (h + n + l))
    ensures c + x + h + n + l == c + (x + h + n + l)
    ensures c + x + h + n + l == (c + x) + (h + n + l)
  {
  }

  /** A five-piece concatenation split after its second piece. */
  lemma RegroupPair(a: string, b: string, c: string, d: string, e: string)
    ensures a + b + c + d + e == (a + b) + (c + d + e)
  {
  }

  /** A string begins with any string it is built from. */
  lemma PrefixOfAppend(x: string, y: string)
    ensures HasPrefix(x + y, x)
  {
    assert (x + y)[..|x|] == x;
  }

  /** A string ends with the last string it is built from. */
  lemma SuffixOfAppend(x: string, y: string)
    ensures HasSuffix(x + y, y)
  {
    assert (x + y)[|x + y| - |y|..] == y;
  }

  /** Prefixes compose: a prefix of a prefix is a prefix. */
  lemma PrefixTrans(a: string, b: string, c: string)
    requires HasPrefix(a, b) && HasPrefix(b, c)
    ensures HasPrefix(a, c)
  {
    assert a[..|c|] == b[..|b|][..|c|];
  }

  /**
   * `build_augmented_prompt(story, matched_keys, memory, instruction)`:
   * collects the parts of the sections that apply and joins them with
   * newlines.
   */
  method BuildAugmentedPrompt(story: string, matchedKeys: seq<string>, memory: Memory,
                              instruction: Option<string>, dumps: Memory -> string)
    returns (prompt: string)
    ensures prompt == AugmentedPrompt(story, matchedKeys, memory, instruction, dumps)
  {
    ghost var ctx := MatchedContext(matchedKeys, memory.entries);
    var contextParts: seq<string> := [];
    if |matchedKeys| > 0 && |memory.entries| > 0 {
      var order: seq<string> := [];
      var entries: map<string, MemoryEntry> := map[];
      for i := 0 to |matchedKeys|
        invariant Memory(order, entries) == MatchedContext(matchedKeys[..i], memory.entries)
      {
        var key := matchedKeys[i];
        MatchedContextStep(matchedKeys[..i], key, memory.entries);
        assert matchedKeys[..i + 1] == matchedKeys[..i] + [key];
        if key in memory.entries {
          var entry := memory.entries[key];
          if key !in entries {
            order := order + [key];
          }
          entries := entries[key := entry];
        }
      }
      assert matchedKeys[..|matchedKeys|] == matchedKeys;
      if |entries| > 0 {
        contextParts := [MemoryHeader, dumps(Memory(order, entries)), ""];
      } else {
        assert entries == map[];
      }
    } else {
      NoMatchNoContext(matchedKeys, memory.entries);
    }
    var storyParts: seq<string> := [];
    if |story| > 0 && |Strip(story)| > 0 {
      storyParts := [StoryInputHeader, Strip(story), ""];
    }
    var line := DefaultInstruction;
    if instruction.Some? && |instruction.value| > 0 && |Strip(instruction.value)| > 0 {
      line := Strip(instruction.value);
    }
    var last := [InstructionHeader, line];
    prompt := Join(contextParts + storyParts + last, "\n");

    assert ctx.entries != map[] <==> contextParts != [];
    assert Strip(story) != "" <==> storyParts != [];
    assert line == InstructionText(instruction);
    JoinParts(MemoryHeader, dumps(ctx), contextParts != [], StoryInputHeader, Strip(story), storyParts != [],
              InstructionHeader, line, "\n");
  }

  /**
   * Joining the parts of the optional sections and of the final one gives
   * the sections laid end to end, each optional one closed by an empty line.
   */
  lemma JoinParts(h1: string, b1: string, on1: bool, h2: string, b2: string, on2: bool,
                  h3: string, b3: string, sep: string)
    ensures Join((if on1 then [h1, b1, ""] else []) + (if on2 then [h2, b2, ""] else []) + [h3, b3], sep)
            == (if on1 then h1 + sep + b1 + sep + sep else "") + (if on2 then h2 + sep + b2 + sep + sep else "")
               + h3 + sep + b3
  {
    var p1: seq<string> := if on1 then [h1, b1, ""] else [];
    var p2: seq<string> := if on2 then [h2, b2, ""] else [];
    var last := [h3, b3];
    var s1 := if on1 then h1 + sep + b1 + sep + sep else "";
    var s2 := if on2 then h2 + sep + b2 + sep + sep else "";
    var tail := h3 + sep + b3;
    JoinCons(h3, [b3], sep);
    assert Join(last, sep) == tail;
    assert Join(p2 + last, sep) == s2 + tail by {
      if on2 {
        JoinSection(h2, b2, last, sep);
      } else {
        assert p2 + last == last;
      }
    }
    assert p1 + p2 + last == p1 + (p2 + last);
    assert Join(p1 + p2 + last, sep) == s1 + (s2 + tail) by {
      if on1 {
        JoinSection(h1, b1, p2 + last, sep);
      } else {
        assert p1 + (p2 + last) == p2 + last;
      }
    }
    Regroup(s1, s2, h3, sep, b3);
  }

  /** With no matched key in memory the context is empty. */
  lemma NoMatchNoContext(matchedKeys: seq<string>, memory: map<string, MemoryEntry>)
    requires forall k :: k in matchedKeys ==> k !in memory
    ensures MatchedContext(matchedKeys, memory).entries == map[]
  {
    var ctx := MatchedContext(matchedKeys, memory);
    MatchedContextKeys(matchedKeys, memory);
    assert forall k :: k !in ctx.entries;
  }

  /** A matched key in memory: the prompt opens with the memory section. */
  lemma PromptMemoryPresent(story: string, matchedKeys: seq<string>, memory: Memory,
                            instruction: Option<string>, dumps: Memory -> string, k: string)
    requires k in matchedKeys && k in memory.entries
    ensures HasPrefix(AugmentedPrompt(story, matchedKeys, memory, instruction, dumps),
                      MemoryHeader + "\n" + dumps(MatchedContext(matchedKeys, memory.entries)) + "\n" + "\n")
  {
    var p := AugmentedPrompt(story, matchedKeys, memory, instruction, dumps);
    var ctx := MatchedContext(matchedKeys, memory.entries);
    var c, st, instr := ContextSection(ctx, dumps), StorySection(story), InstructionText(instruction);
    MatchedContextKeys(matchedKeys, memory.entries);
    assert k in ctx.entries;
    assert c == MemoryHeader + "\n" + dumps(ctx) + "\n" + "\n";
    Regroup(c, st, InstructionHeader, "\n", instr);
    PrefixOfAppend(c, st + InstructionHeader + "\n" + instr);
  }

  /** No matched key in memory: the prompt opens with the story or the instruction header instead. */
  lemma PromptMemoryAbsent(story: string, matchedKeys: seq<string>, memory: Memory,
                           instruction: Option<string>, dumps: Memory -> string)
    requires forall k :: k in matchedKeys ==> k !in memory.entries
    ensures !HasPrefix(AugmentedPrompt(story, matchedKeys, memory, instruction, dumps), MemoryHeader)
    ensures !HasPrefix(AugmentedPrompt(story, matchedKeys, memory, instruction, dumps), MemoryHeader + "\n")
  {
    var p := AugmentedPrompt(story, matchedKeys, memory, instruction, dumps);
    NoContextPrompt(story, matchedKeys, memory, instruction, dumps);
    OpeningChar(story, instruction);
    NotPrefix(p, MemoryHeader, 1);
    SecondOfTwo(MemoryHeader, "\n");
    NotPrefix(p, MemoryHeader + "\n", 1);
  }

  /**
   * The story and instruction sections together differ from the memory
   * header in their second character.
   */
  lemma OpeningChar(story: string, instruction: Option<string>)
    ensures var q := StorySection(story) + InstructionHeader + "\n" + InstructionText(instruction);
      |q| > 1 && q[1] != MemoryHeader[1]
  {
    var st := StorySection(story);
    if st != "" {
      assert st == StoryInputHeader + "\n" + Strip(story) + "\n" + "\n";
      SecondOfFive(StoryInputHeader, "\n", Strip(story), "\n", "\n");
    }
    OpeningCharOf(st, InstructionText(instruction));
  }

  /** `OpeningChar` over plain variables: the story section (if any) or the instruction header decides the second character. */
  lemma OpeningCharOf(st: string, instr: string)
    requires st == "" || (|st| > 1 && st[1] == StoryInputHeader[1])
    ensures var q := st + InstructionHeader + "\n" + instr;
      |q| > 1 && q[1] != MemoryHeader[1]
  {
    if st != "" {
      SecondOfFour(st, InstructionHeader, "\n", instr);
    } else {
      DropEmpty(st, InstructionHeader, "\n", instr);
      SecondOfThree(InstructionHeader, "\n", instr);
    }
  }

  /** Without a matched key in memory, the prompt is the story section followed by the instruction section. */
  lemma NoContextPrompt(story: string, matchedKeys: seq<string>, memory: Memory,
                        instruction: Option<string>, dumps: Memory -> string)
    requires forall k :: k in matchedKeys ==> k !in memory.entries
    ensures AugmentedPrompt(story, matchedKeys, memory, instruction, dumps)
            == StorySection(story) + InstructionHeader + "\n" + InstructionText(instruction)
  {
    NoMatchNoContext(matchedKeys, memory.entries);
    var c := ContextSection(MatchedContext(matchedKeys, memory.entries), dumps);
    assert c == "";
    DropEmptyHead(c, StorySection(story), InstructionHeader, "\n", InstructionText(instruction));
  }

  /** The story section is empty exactly for a blank story, and holds the stripped story otherwise. */
  lemma StorySectionCases(story: string)
    ensures Blank(story) ==> StorySection(story) == ""
    ensures !Blank(story) ==> StorySection(story) == StoryInputHeader + "\n" + Strip(story) + "\n" + "\n"
  {
    StripEmptyIffBlank(story);
  }

  /** An empty first piece of a five-piece concatenation can be dropped. */
  lemma DropEmptyHead(e: string, a: string, b: string, c: string, d: string)
    requires e == ""
    ensures e + a + b + c + d == a + b + c + d
  {
  }

  /** An empty first piece of a four-piece concatenation can be dropped. */
  lemma DropEmpty(e: string, a: string, b: string, c: string)
    requires e == ""
    ensures e + a + b + c == a + b + c
  {
  }

  /** The second character of a concatenation is that of its first piece, when that piece is long enough (two pieces). */
  lemma SecondOfTwo(a: string, b: string)
    requires |a| > 1
    ensures |a + b| > 1 && (a + b)[1] == a[1]
  {
  }

  /** As `SecondOfTwo`, for three pieces. */
  lemma SecondOfThree(a: string, b: string, c: string)
    requires |a| > 1
    ensures |a + b + c| > 1 && (a + b + c)[1] == a[1]
  {
  }

  /** As `SecondOfTwo`, for four pieces. */
  lemma SecondOfFour(a: string, b: string, c: string, d: string)
    requires |a| > 1
    ensures |a + b + c + d| > 1 && (a + b + c + d)[1] == a[1]
  {
  }

  /** As `SecondOfTwo`, for five pieces. */
  lemma SecondOfFive(a: string, b: string, c: string, d: string, e: string)
    requires |a| > 1
    ensures |a + b + c + d + e| > 1 && (a + b + c + d + e)[1] == a[1]
  {
  }

  /** Two strings that differ at a position both have do not begin one with the other. */
  lemma NotPrefix(p: string, q: string, i: nat)
    requires i < |q| && i < |p| && p[i] != q[i]
    ensures !HasPrefix(p, q)
  {
  }

  /**
   * The memory section opens the prompt exactly when some matched key is in
   * memory, and then carries the serialised context.
   */
  lemma PromptMemorySection(story: string, matchedKeys: seq<string>, memory: Memory,
                            instruction: Option<string>, dumps: Memory -> string)
    ensures var p := AugmentedPrompt(story, matchedKeys, memory, instruction, dumps);
      && (HasPrefix(p, MemoryHeader) <==> exists k :: k in matchedKeys && k in memory.entries)
      && (HasPrefix(p, MemoryHeader + "\n") <==> exists k :: k in matchedKeys && k in memory.entries)
      && (forall k :: k in matchedKeys && k in memory.entries ==>
            HasPrefix(p, MemoryHeader + "\n" + dumps(MatchedContext(matchedKeys, memory.entries)) + "\n" + "\n"))
  {
    var p := AugmentedPrompt(story, matchedKeys, memory, instruction, dumps);
    var full := MemoryHeader + "\n" + dumps(MatchedContext(matchedKeys, memory.entries)) + "\n" + "\n";
    if exists k :: k in matchedKeys && k in memory.entries {
      var k :| k in matchedKeys && k in memory.entries;
      PromptMemoryPresent(story, matchedKeys, memory, instruction, dumps, k);
      RegroupPair(MemoryHeader, "\n", dumps(MatchedContext(matchedKeys, memory.entries)), "\n", "\n");
      PrefixOfAppend(MemoryHeader + "\n", dumps(MatchedContext(matchedKeys, memory.entries)) + "\n" + "\n");
      PrefixTrans(p, full, MemoryHeader + "\n");
      PrefixOfAppend(MemoryHeader, "\n");
      PrefixTrans(p, MemoryHeader + "\n", MemoryHeader);
      forall k' | k' in matchedKeys && k' in memory.entries ensures HasPrefix(p, full) {
      }
    } else {
      PromptMemoryAbsent(story, matchedKeys, memory, instruction, dumps);
    }
  }

  /**
   * The prompt always ends with the instruction section; the stripped story,
   * when not blank, comes right before it.
   */
  lemma PromptTail(story: string, matchedKeys: seq<string>, memory: Memory,
                   instruction: Option<string>, dumps: Memory -> string)
    ensures var p := AugmentedPrompt(story, matchedKeys, memory, instruction, dumps);
      && HasSuffix(p, InstructionHeader + "\n" + InstructionText(instruction))
      && (!Blank(story) ==>
            HasSuffix(p, StoryInputHeader + "\n" + Strip(story) + "\n" + "\n"
                         + InstructionHeader + "\n" + InstructionText(instruction)))
  {
    var p := AugmentedPrompt(story, matchedKeys, memory, instruction, dumps);
    var c, st, instr := ContextSection(MatchedContext(matchedKeys, memory.entries), dumps),
                       StorySection(story), InstructionText(instruction);
    Regroup(c, st, InstructionHeader, "\n", instr);
    SuffixOfAppend(c + st, InstructionHeader + "\n" + instr);
    StripEmptyIffBlank(story);
    if !Blank(story) {
      SuffixOfAppend(c, st + InstructionHeader + "\n" + instr);
    }
  }

  /**
   * With no matched key in memory, the prompt is the story section (when the
   * story is not blank) followed by the instruction section, and nothing else.
   */
  lemma PromptWithoutContext(story: string, matchedKeys: seq<string>, memory: Memory,
                             instruction: Option<string>, dumps: Memory -> string)
    requires forall k :: k in matchedKeys ==> k !in memory.entries
    ensures var p := AugmentedPrompt(story, matchedKeys, memory, instruction, dumps);
      && (Blank(story) ==> p == InstructionHeader + "\n" + InstructionText(instruction))
      && (!Blank(story) ==> p == StoryInputHeader + "\n" + Strip(story) + "\n" + "\n"
                                 + InstructionHeader + "\n" + InstructionText(instruction))
  {
    NoContextPrompt(story, matchedKeys, memory, instruction, dumps);
    StorySectionCases(story);
    if Blank(story) {
      DropEmpty(StorySection(story), InstructionHeader, "\n", InstructionText(instruction));
    }
  }

  // ---------------------------------------------------------------------
  // build_extraction_prompt
  // ---------------------------------------------------------------------

  /** The `types_list` spliced into the template: the given types, or the defaults when none is given. */
  function TypesList(types: seq<string>): string
  {
    Join(if types == [] then DefaultExtractTypes else types, ", ")
  }

  /** Every requested type (every default type when none is requested) is named in the types list. */
  lemma TypesListNames(types: seq<string>)
    ensures forall t :: t in types ==> Occurs(t, TypesList(types))
    ensures types == [] ==> forall t :: t in DefaultExtractTypes ==> Occurs(t, TypesList(types))
  {
    var given := if types == [] then DefaultExtractTypes else types;
    JoinContainsParts(given, ", ");
    forall t | t in given ensures Occurs(t, TypesList(types)) {
      var i :| 0 <= i < |given| && given[i] == t;
    }
  }

  /**
   * The fixed text of the extraction template, cut where `types_list` and
   * the story are spliced in: the stretch after the opening sentence, the one
   * after the rule on `"type"`, and the one after the rule that names the
   * types again, each kept as its lines.
   */
  datatype Template = Template(formatLines: seq<string>, guidanceLines: seq<string>, languageLines: seq<string>)

  const ExtractIntro: string := "Analyze the following story and extract all "
  const TypeRule: string := "- \"type\" should be one of: "
  const ExtractRule: string := "- Extract ALL relevant "
  const StoryHeader: string := "\n\nStory:\n"

  /** The template of backend/services/prompt.py:81-144. */
  const ExtractTemplate: Template := Template(
    [
      "",
      "",
      "Return the data as a JSON object with this exact format:",
      "{",
      "  \"Name of Entity\": {\"type\": \"category\", \"desc\": \"Summarized narrative description\"},",
      "  \"Another Entity\": {\"type\": \"category\", \"desc\": \"Summarized narrative description\"}",
      "}",
      "",
      "Rules:",
      "- Use the actual name as the key",
      ""

    ],
    [
      "- \"desc\" should be a summarized narrative of EVERYTHING related to the entity:",
      "",
      "  For CHARACTERS/PERSONS:",
      "  - Physical appearance (face, hair, eyes, body type, height, distinguishing features)",
      "  - Clothing and accessories typically worn",
      "  - Personality traits and temperament",
      "  - Background and history",
      "  - Objectives, goals, and motivations",
      "  - Relationships with other characters",
      "  - Skills, abilities, or powers",
      "  - Current status or situation",
      "",
      "  For LOCATIONS/PLACES:",
      "  - Where it is located (geography, region, relative position)",
      "  - What it looks like (architecture, landscape, atmosphere, colors, lighting)",
      "  - What it is used for (purpose, function)",
      "  - Who owns or controls it",
      "  - Notable features or landmarks within",
      "  - History or significance",
      "  - Current condition or state",
      "  - Mood or feeling it evokes",
      "",
      "  For ITEMS/OBJECTS:",
      "  - What it is (type of object)",
      "  - What it looks like (size, shape, color, material, markings)",
      "  - What makes it special or unique",
      "  - What it does or how it functions",
      "  - Who owns or created it",
      "  - History or origin",
      "  - Current location or status",
      "",
      "  For EVENTS:",
      "  - What happened",
      "  - When and where it occurred",
      "  - Who was involved",
      "  - Why it happened (causes)",
      "  - What were the consequences",
      "  - Significance to the story",
      "",
      "- Write descriptions as flowing narrative paragraphs, not bullet points",
      "- Include ALL details mentioned in the story about each entity",
      "- If information is not provided in the story, do not invent it",
      ""

    ],
    [
      "",
      "- Do not include any markdown formatting, only return valid JSON",
      "",
      "IMPORTANT: Output MUST be in the SAME LANGUAGE as the input story. ",
      "If the story is in Thai, output in Thai.",
      "If the story is in Japanese, output in Japanese.",
      "If the story is in English, output in English.",
      "Match the language of the story exactly."

    ])

  /** The template `t` with the types list `tl` in its three places and the story at the end. */
  function Fill(t: Template, tl: string, story: string): (r: string)
    ensures HasPrefix(r, ExtractIntro + tl + ".")
    ensures HasSuffix(r, StoryHeader + story)
  {
    var head := ExtractIntro + tl + ".";
    var body := Join(t.formatLines, "\n") + TypeRule + tl + "\n" + Join(t.guidanceLines, "\n")
      + ExtractRule + tl + " mentioned in the story" + Join(t.languageLines, "\n");
    PrefixOfAppend(head, body + (StoryHeader + story));
    SuffixOfAppend(head + body, StoryHeader + story);
    head + body + (StoryHeader + story)
  }

  /**
   * The types list also closes the rule on `"type"` and fills the rule
   * "Extract ALL relevant ... mentioned in the story".
   */
  lemma FillRules(t: Template, tl: string, story: string)
    ensures Occurs(TypeRule + tl + "\n", Fill(t, tl, story))
    ensures Occurs(ExtractRule + tl + " mentioned in the story", Fill(t, tl, story))
  {
    var head := ExtractIntro + tl + ".";
    var format, guidance, language := Join(t.formatLines, "\n"), Join(t.guidanceLines, "\n"), Join(t.languageLines, "\n");
    var m := " mentioned in the story";
    RegroupTemplate(head, format, TypeRule, tl, "\n", guidance, ExtractRule, m, language, StoryHeader + story);
    Middle(head + format, TypeRule + tl + "\n", guidance + ExtractRule + tl + m + language + (StoryHeader + story));
    Middle(head + format + TypeRule + tl + "\n" + guidance, ExtractRule + tl + m, language + (StoryHeader + story));
  }

  /** The filled template regrouped around the rule on `"type"` and around the extraction rule. */
  lemma RegroupTemplate(h: string, f: string, tr: string, t: string, nl: string, g: string,
                        er: string, m: string, l: string, s: string)
    ensures h + (f + tr + t + nl + g + er + t + m + l) + s == (h + f) + (tr + t + nl) + (g + er + t + m + l + s)
    ensures h + (f + tr + t + nl + g + er + t + m + l) + s == (h + f + tr + t + nl + g) + (er + t + m) + (l + s)
  {
  }

  /**
   * `build_extraction_prompt(story, types)`: the template with `types_list`
   * in its three places and the story, verbatim, at the end.
   */
  function ExtractionPrompt(story: string, types: seq<string>): (r: string)
    ensures HasPrefix(r, ExtractIntro + TypesList(types) + ".")
    ensures HasSuffix(r, StoryHeader + story)
    ensures Occurs(TypeRule + TypesList(types) + "\n", r)
    ensures Occurs(ExtractRule + TypesList(types) + " mentioned in the story", r)
  {
    FillRules(ExtractTemplate, TypesList(types), story);
    Fill(ExtractTemplate, TypesList(types), story)
  }

  /** With no types given, the prompt asks for the four default categories. */
  lemma ExtractionDefaults(story: string)
    ensures HasPrefix(ExtractionPrompt(story, []), ExtractIntro + "character, location, item, event" + ".")
  {
    DefaultTypesList();
  }

  /** The default types, joined. */
  lemma DefaultTypesList()
    ensures TypesList([]) == "character, location, item, event"
  {
    JoinCons("character", ["location", "item", "event"], ", ");
    JoinCons("location", ["item", "event"], ", ");
    JoinCons("item", ["event"], ", ");
  }
}
