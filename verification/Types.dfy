/** Value types of `src/types.rs` used by several modules. */
module Types {

  /** Rust's u8. */
  type u8 = x: int | 0 <= x < 256

  datatype AgentRole =
    | Planner | Extractor | Coder | Summarizer | Fallback | ToolCaller
    | Analyzer | Reviewer | Scheduler | ConfigManager | Validator

  datatype SubtaskDefinition = SubtaskDefinition(
    id: string,
    description: string,
    agentRole: AgentRole,
    dependencies: seq<string>,
    instructions: string)

  datatype SubtaskPlan = SubtaskPlan(subtasks: seq<SubtaskDefinition>)
}
