/** `getCategoryColor` (client/src/lib/utils.ts, lines 22-33): the background class a
    task card uses for its category. */
module Utils {
  import TaskContext

  const WorkColor: string := "bg-task-work"
  const PersonalColor: string := "bg-task-personal"
  const UrgentColor: string := "bg-task-urgent"
  const DefaultColor: string := "bg-primary"

  /** The switch on the category's name; any string that is not one of the three
      names gets the default colour. */
  function CategoryColor(category: string): (r: string)
    ensures category == "Work" <==> r == WorkColor
    ensures category == "Personal" <==> r == PersonalColor
    ensures category == "Urgent" <==> r == UrgentColor
    ensures category !in {"Work", "Personal", "Urgent"} <==> r == DefaultColor
  {
    match category
    case "Work" => WorkColor
    case "Personal" => PersonalColor
    case "Urgent" => UrgentColor
    case _ => DefaultColor
  }

  /** The string a `TaskCategory` value is in TypeScript. */
  function CategoryName(c: TaskContext.TaskCategory): (r: string) {
    match c
    case Work => "Work"
    case Personal => "Personal"
    case Urgent => "Urgent"
  }

  /** The three categories get three different colours, none of them the default: the
      colour of a task's category tells the category apart. */
  lemma CategoryColorsDistinct(a: TaskContext.TaskCategory, b: TaskContext.TaskCategory)
    ensures CategoryColor(CategoryName(a)) != DefaultColor
    ensures CategoryColor(CategoryName(a)) == CategoryColor(CategoryName(b)) <==> a == b
  {
  }
}
